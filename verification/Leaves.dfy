/**
 * What an insertion and a deletion do to the pages at the bottom of an index, and to the separators
 * between them, from left to right (server/dbe/btree.c:164-354): which page changes, which separator
 * comes, goes or changes, and with which record number.
 */
module Leaves {
  import opened Options
  import opened Entries
  import opened BTree
  import opened IndexState

  /** The bottom of a tree: leaf pages, and between any two of them the separator that divides them,
      on whatever page above that stands. */
  datatype Cell = Page(es: seq<Ent>) | Mark(sep: Ent)

  ghost function Cells(t: Tree): seq<Cell>
    decreases t, 1
  {
    match t
    case Leaf(_, es) => [Page(es)]
    case Node(_, kids, seps) => CellsAll(kids, seps)
  }

  /** Of children and the separators behind them; the last child has none. */
  ghost function CellsAll(kids: seq<Tree>, seps: seq<Ent>): seq<Cell>
    decreases kids, 0
  {
    if kids == [] then []
    else if seps == [] then Cells(kids[0])
    else Cells(kids[0]) + [Mark(seps[0])] + CellsAll(kids[1..], seps[1..])
  }

  lemma {:induction false} CellsConcat(a: seq<Tree>, sa: seq<Ent>, b: seq<Tree>, sb: seq<Ent>)
    requires |a| == |sa|
    ensures CellsAll(a + b, sa + sb) == CellsAll(a, sa) + CellsAll(b, sb)
    decreases |a|
  {
    if a == [] {
      assert a + b == b && sa + sb == sb;
    } else {
      assert (a + b)[1..] == a[1..] + b && (sa + sb)[1..] == sa[1..] + sb;
      CellsConcat(a[1..], sa[1..], b, sb);
    }
  }

  /** What is left of child r, and what is right of it. */
  ghost function LeftOf(kids: seq<Tree>, seps: seq<Ent>, r: nat): seq<Cell>
    requires r <= |kids| && r <= |seps|
  {
    CellsAll(kids[..r], seps[..r])
  }

  ghost function RightOf(kids: seq<Tree>, seps: seq<Ent>, r: nat): seq<Cell>
    requires r < |kids| && r <= |seps|
  {
    if r == |seps| then [] else [Mark(seps[r])] + CellsAll(kids[r + 1..], seps[r + 1..])
  }

  lemma CellsFrom(kids: seq<Tree>, seps: seq<Ent>, r: nat)
    requires |kids| == |seps| + 1 && r <= |seps|
    ensures Some(CellsAll(kids[r..], seps[r..])) == Some(Cells(kids[r]) + RightOf(kids, seps, r))
  {
    var ks, ss := kids[r..], seps[r..];
    assert ks[0] == kids[r] && ks[1..] == kids[r + 1..];
    if r < |seps| {
      assert ss[0] == seps[r] && ss[1..] == seps[r + 1..];
      var rest := CellsAll(kids[r + 1..], seps[r + 1..]);
      assert Cells(kids[r]) + [Mark(seps[r])] + rest == Cells(kids[r]) + ([Mark(seps[r])] + rest);
    } else {
      assert Cells(kids[r]) + [] == Cells(kids[r]);
    }
  }

  lemma Regrouped(a: seq<Cell>, b: seq<Cell>, c: seq<Cell>)
    ensures Some(a + (b + c)) == Some(a + b + c)
  {
    assert a + (b + c) == a + b + c;
  }

  lemma CellsAt(kids: seq<Tree>, seps: seq<Ent>, r: nat)
    requires |kids| == |seps| + 1 && r <= |seps|
    ensures Some(CellsAll(kids, seps)) == Some(LeftOf(kids, seps, r) + Cells(kids[r]) + RightOf(kids, seps, r))
  {
    CellsConcat(kids[..r], seps[..r], kids[r..], seps[r..]);
    assert kids[..r] + kids[r..] == kids && seps[..r] + seps[r..] == seps;
    CellsFrom(kids, seps, r);
    Regrouped(LeftOf(kids, seps, r), Cells(kids[r]), RightOf(kids, seps, r));
  }

  /** One child changed. */
  lemma CellsReplace(kids: seq<Tree>, seps: seq<Ent>, r: nat, k: Tree)
    requires |kids| == |seps| + 1 && r <= |seps|
    ensures Some(CellsAll(kids[r := k], seps)) == Some(LeftOf(kids, seps, r) + Cells(k) + RightOf(kids, seps, r))
  {
    var ks := kids[r := k];
    CellsAt(ks, seps, r);
    assert ks[..r] == kids[..r] && ks[r + 1..] == kids[r + 1..];
  }

  // ---- deletion ----

  /** The last entry of the bottom is gone: a page keeps the others, and sep is to stand behind it with
      no record number; or the page is gone, and sep is the separator that stood before it. */
  ghost predicate TrimmedTo(was: seq<Cell>, now: seq<Cell>, sep: Ent) {
    var n := |was| - 1;
    n >= 0 && was[n].Page? && was[n].es != []
    && var es := was[n].es;
       if |es| > 1
       then Some(now) == Some(was[..n] + [Page(es[..|es| - 1])]) && sep == Ent(es[|es| - 2].key, 0)
       else n >= 1 && was[n - 1] == Mark(sep) && Some(now) == Some(was[..n - 1])
  }

  ghost predicate TrimLaw(t: Tree, res: TrimResult) {
    if res.NoneLeft? then t.Leaf? && |t.es| == 1 else TrimmedTo(Cells(t), Cells(RestOfTrim(res)), res.sep)
  }

  lemma {:induction false} TrimExactly(t: Tree, cap: nat)
    requires WF(t, cap)
    ensures TrimLaw(t, Trim(t, cap))
    decreases t
  {
    if t.Node? {
      TrimExactly(t.kids[|t.seps|], cap);
      TrimAbove(t, Trim(t.kids[|t.seps|], cap));
    } else {
      var page := [Page(t.es[..|t.es| - 1])];
      assert Cells(t)[..0] + page == page;
    }
  }

  lemma TrimAbove(t: Tree, sub: TrimResult)
    requires t.Node? && 1 <= |t.seps| && |t.kids| == |t.seps| + 1 && TrimLaw(t.kids[|t.seps|], sub)
    ensures TrimLaw(t, TrimAround(t.pno, t.kids, t.seps, sub))
  {
    var n, res := |t.seps|, TrimAround(t.pno, t.kids, t.seps, sub);
    var a := LeftOf(t.kids, t.seps, n);
    CellsAt(t.kids, t.seps, n);
    assert Cells(t) == a + Cells(t.kids[n]);
    LastMark(t.kids, t.seps, n - 1);
    if sub.NoneLeft? {
      if n == 1 { assert t.kids[..1] == [t.kids[0]] && t.seps[..1] == [t.seps[0]] && t.seps[..0] == []; }
      assert t.kids[..n] == t.kids[..n - 1] + [t.kids[n - 1]];
      assert Cells(t.kids[n]) == [Page(t.kids[n].es)];
      assert Cells(RestOfTrim(res)) == a[..|a| - 1] == Cells(t)[..|a| - 1];
    } else {
      CellsReplace(t.kids, t.seps, n, RestOfTrim(sub));
      assert Cells(RestOfTrim(res)) == a + Cells(RestOfTrim(sub));
      TrimmedLater(a, Cells(t.kids[n]), Cells(RestOfTrim(sub)), sub.sep);
    }
  }

  /** The cells of the first children, without and with the mark behind them. */
  lemma LastMark(kids: seq<Tree>, seps: seq<Ent>, r: nat)
    requires r < |seps| && |kids| == |seps| + 1
    ensures LeftOf(kids, seps, r + 1) == CellsAll(kids[..r + 1], seps[..r]) + [Mark(seps[r])]
  {
    var ks, ss := kids[..r + 1], seps[..r + 1];
    CellsConcat(kids[..r], seps[..r], [kids[r]], [seps[r]]);
    assert ks == kids[..r] + [kids[r]] && ss == seps[..r] + [seps[r]];
    CellsConcat(kids[..r], seps[..r], [kids[r]], []);
    assert seps[..r] + [] == seps[..r];
    assert [kids[r]][1..] == [] && [seps[r]][1..] == [];
    assert CellsAll([kids[r]], [seps[r]]) == Cells(kids[r]) + [Mark(seps[r])];
  }

  lemma TrimmedLater(a: seq<Cell>, was: seq<Cell>, now: seq<Cell>, sep: Ent)
    requires TrimmedTo(was, now, sep)
    ensures TrimmedTo(a + was, a + now, sep)
  {
    var n := |was| - 1;
    assert (a + was)[|a| + n] == was[n] && (a + was)[..|a| + n] == a + was[..n];
    if |was[n].es| == 1 {
      assert (a + was)[|a| + n - 1] == was[n - 1] && (a + was)[..|a| + n - 1] == a + was[..n - 1];
    } else {
      var p := [Page(was[n].es[..|was[n].es| - 1])];
      assert a + (was[..n] + p) == a + was[..n] + p;
    }
  }

  /** Entry x is taken from the page at place i. When it was the last one there, the separator behind the
      page gets the key of the one before it and no record number; when it was the only one, the page
      goes, with the separator behind it or, if it is the last page, the one before it. */
  ghost predicate DeletedFrom(was: seq<Cell>, now: seq<Cell>, x: Ent, i: nat) {
    i < |was| && was[i].Page? && Present(was[i].es, x)
    && var es := was[i].es;
       if |es| > 1 then
         var page := Page(Remove(es, x));
         if i + 1 < |was| && es[|es| - 1] == x
         then Some(now) == Some(Spliced(was, i, 2, [page, Mark(Ent(es[|es| - 2].key, 0))]))
         else Some(now) == Some(Spliced(was, i, 1, [page]))
       else if i + 1 < |was| then Some(now) == Some(Spliced(was, i, 2, []))
       else i >= 1 && Some(now) == Some(Spliced(was, i - 1, 2, []))
  }

  /** n of the cells from the i-th on replaced by others. */
  ghost function Spliced(s: seq<Cell>, i: nat, n: nat, m: seq<Cell>): seq<Cell>
    requires i + n <= |s|
  {
    s[..i] + m + s[i + n..]
  }

  lemma SplicedIn(a: seq<Cell>, s: seq<Cell>, c: seq<Cell>, i: nat, n: nat, m: seq<Cell>)
    requires i + n <= |s|
    ensures Some(a + Spliced(s, i, n, m) + c) == Some(Spliced(a + s + c, |a| + i, n, m))
  {
    var all := a + s + c;
    assert all[..|a| + i] == a + s[..i] && all[|a| + i + n..] == s[i + n..] + c;
    assert a + Spliced(s, i, n, m) + c == Spliced(all, |a| + i, n, m);
  }

  ghost predicate DelLaw(was: seq<Cell>, res: DelResult, x: Ent, i: nat) {
    match res
    case Missing => true
    case Gone => was == [Page([x])] && i == 0
    case _ => DeletedFrom(was, Cells(Rest(res)), x, i)
  }

  /** A deletion, for every index: the page it is taken from, and all that becomes of the pages and the
      separators. */
  lemma {:induction false} DelExactly(t: Tree, x: Ent, cap: nat) returns (i: nat)
    requires RootWF(t, cap) && Sorted(Flat(t))
    ensures DelLaw(Cells(t), Del(t, x, cap), x, i)
    decreases t
  {
    i := 0;
    if t.Leaf? {
      LeafExactly(t, x, cap);
    } else {
      var r := Pos(Bounds(t), x);
      WFShaped(t, cap);
      ScanDescends(t, cap, x);
      LastPage(t.kids[r], cap);
      if r < |t.seps| { assert Bounds(t)[r] == Last(t.kids[r]); }
      if Hits(Bounds(t), r, x, false) {
        TrimExactly(t.kids[r], cap);
        i := HitExactly(t, x, r, Trim(t.kids[r], cap), Del(t, x, cap));
      } else {
        i := DelExactly(t.kids[r], x, cap);
        i := AroundExactly(t, x, r, i, Del(t.kids[r], x, cap), Del(t, x, cap));
      }
    }
  }

  lemma LeafExactly(t: Tree, x: Ent, cap: nat)
    requires t.Leaf? && RootWF(t, cap)
    ensures DelLaw(Cells(t), Del(t, x, cap), x, 0)
  {
    if Present(t.es, x) {
      if |t.es| == 1 { assert t.es == [x]; }
      else { assert Spliced(Cells(t), 0, 1, [Page(Remove(t.es, x))]) == [Page(Remove(t.es, x))]; }
    }
  }

  // ---- where the separator is hit ----

  lemma HitExactly(t: Tree, x: Ent, r: nat, sub: TrimResult, res: DelResult) returns (i: nat)
    requires t.Node? && 1 <= |t.seps| && |t.kids| == |t.seps| + 1 && r < |t.seps| && TrimLaw(t.kids[r], sub)
    requires Cells(t.kids[r]) != [] && LastIn(Cells(t.kids[r]), x) && res == DelHit(t.pno, t.kids, t.seps, r, sub)
    ensures DelLaw(Cells(t), res, x, i)
  {
    i := |LeftOf(t.kids, t.seps, r)| + |Cells(t.kids[r])| - 1;
    if sub.NoneLeft? { HitGone(t, x, r, Cells(t), Cells(Rest(res))); }
    else { HitKept(t, x, r, sub, Cells(t), Cells(Rest(res)), i); }
  }

  lemma HitGone(t: Tree, x: Ent, r: nat, all: seq<Cell>, now: seq<Cell>)
    requires t.Node? && 1 <= |t.seps| && |t.kids| == |t.seps| + 1 && r < |t.seps|
    requires Cells(t.kids[r]) != [] && LastIn(Cells(t.kids[r]), x) && t.kids[r].Leaf? && |t.kids[r].es| == 1
    requires Some(all) == Some(Cells(t)) && Some(now) == Some(Cells(Rest(DropChild(t.pno, t.kids, t.seps, r))))
    ensures DeletedFrom(all, now, x, |LeftOf(t.kids, t.seps, r)|)
  {
    assert t.kids[r].es == [x];
    CellsAt(t.kids, t.seps, r);
    DropExactly(t, r);
    Dropped(all, now, LeftOf(t.kids, t.seps, r), RightOf(t.kids, t.seps, r), x);
  }

  lemma HitKept(t: Tree, x: Ent, r: nat, sub: TrimResult, all: seq<Cell>, now: seq<Cell>, i: nat)
    requires t.Node? && 1 <= |t.seps| && |t.kids| == |t.seps| + 1 && r < |t.seps|
    requires !sub.NoneLeft? && TrimLaw(t.kids[r], sub) && Cells(t.kids[r]) != [] && LastIn(Cells(t.kids[r]), x)
    requires Some(all) == Some(Cells(t))
    requires Some(now) == Some(CellsAll(t.kids[r := RestOfTrim(sub)], t.seps[r := sub.sep]))
    requires i == |LeftOf(t.kids, t.seps, r)| + |Cells(t.kids[r])| - 1
    ensures DeletedFrom(all, now, x, i)
  {
    var a, b, c := LeftOf(t.kids, t.seps, r), Cells(t.kids[r]), RightOf(t.kids, t.seps, r);
    CellsAt(t.kids, t.seps, r);
    CellsSet(t.kids, t.seps, r, RestOfTrim(sub), sub.sep);
    LastPresent(b[|b| - 1].es, x);
    HitIn(all, now, a, b, Cells(RestOfTrim(sub)), c, t.seps[r], sub.sep, x, i);
  }

  ghost predicate LastIn(b: seq<Cell>, x: Ent)
    requires b != []
  {
    EndsWith(b[|b| - 1], x) && Sorted(b[|b| - 1].es)
  }

  /** A page with nothing but x, between others. */
  lemma Dropped(was: seq<Cell>, now: seq<Cell>, a: seq<Cell>, c: seq<Cell>, x: Ent)
    requires Some(was) == Some(a + [Page([x])] + c)
    requires if c != [] then Some(now) == Some(a + c[1..]) else a != [] && Some(now) == Some(a[..|a| - 1])
    ensures DeletedFrom(was, now, x, |a|)
  {
    assert was[..|a|] == a && was[|a|] == Page([x]) && Present([x], x);
    if c != [] {
      assert was[|a| + 2..] == c[1..];
      assert Spliced(was, |a|, 2, []) == a + c[1..];
    } else {
      assert Spliced(was, |a| - 1, 2, []) == a[..|a| - 1];
    }
  }

  predicate EndsWith(c: Cell, x: Ent) { c.Page? && c.es != [] && c.es[|c.es| - 1] == x }

  /** The last page of a subtree ends with its last entry. */
  lemma {:induction false} LastPage(t: Tree, cap: nat)
    requires WF(t, cap)
    ensures Cells(t) != [] && EndsWith(Cells(t)[|Cells(t)| - 1], Last(t))
    ensures Sorted(Flat(t)) ==> Sorted(Cells(t)[|Cells(t)| - 1].es)
    decreases t
  {
    if t.Node? {
      var n := |t.seps|;
      LastPage(t.kids[n], cap);
      CellsAt(t.kids, t.seps, n);
      FlatAt(t.kids, n);
      assert t.kids[n + 1..] == [];
      assert Cells(t) == LeftOf(t.kids, t.seps, n) + Cells(t.kids[n]);
      assert Flat(t) == FlatAll(t.kids[..n]) + Flat(t.kids[n]);
      if Sorted(Flat(t)) { SortedEnd(FlatAll(t.kids[..n]), Flat(t.kids[n])); }
    }
  }

  lemma SortedEnd(a: seq<Ent>, b: seq<Ent>)
    requires Sorted(a + b)
    ensures Sorted(b)
  {
    forall i, j | 0 <= i < j < |b| ensures Less(b[i], b[j]) { assert Less((a + b)[|a| + i], (a + b)[|a| + j]); }
  }

  lemma LastPresent(es: seq<Ent>, x: Ent)
    requires Sorted(es) && es != [] && es[|es| - 1] == x
    ensures Present(es, x) && Remove(es, x) == es[..|es| - 1]
  {
    PosUnique(es, x, |es| - 1);
  }

  /** A child and the separator behind it changed. */
  lemma CellsSet(kids: seq<Tree>, seps: seq<Ent>, r: nat, k: Tree, sep: Ent)
    requires |kids| == |seps| + 1 && r < |seps|
    ensures Some(CellsAll(kids[r := k], seps[r := sep])) ==
      Some(LeftOf(kids, seps, r) + Cells(k) + [Mark(sep)] + RightOf(kids, seps, r)[1..])
  {
    var ks, ss := kids[r := k], seps[r := sep];
    CellsAt(ks, ss, r);
    assert ks[..r] == kids[..r] && ks[r + 1..] == kids[r + 1..] && ss[..r] == seps[..r] && ss[r + 1..] == seps[r + 1..];
    var rest := CellsAll(kids[r + 1..], seps[r + 1..]);
    assert ([Mark(seps[r])] + rest)[1..] == rest;
    var a := LeftOf(kids, seps, r) + Cells(k);
    assert a + ([Mark(sep)] + rest) == a + [Mark(sep)] + rest;
  }

  lemma HitIn(all: seq<Cell>, now: seq<Cell>, a: seq<Cell>, b: seq<Cell>, b': seq<Cell>, c: seq<Cell>, was: Ent,
              sep: Ent, x: Ent, i: nat)
    requires c != [] && Some(all) == Some(a + b + c) && Some(now) == Some(a + b' + [Mark(sep)] + c[1..])
    requires TrimmedTo(b, b', sep) && c[0] == Mark(was)
    requires var es := b[|b| - 1].es;
      es[|es| - 1] == x && Present(es, x) && Remove(es, x) == es[..|es| - 1]
    requires i == |a| + |b| - 1
    ensures DeletedFrom(all, now, x, i)
  {
    var n := |b| - 1;
    HitPlace(all, a, b, c);
    if |b[n].es| > 1 {
      var m := [Page(Remove(b[n].es, x)), Mark(sep)];
      assert b' + [Mark(sep)] == b[..n] + m;
      assert now == Spliced(all, i, 2, m);
    } else {
      assert b[..n] == b' + [Mark(sep)];
      assert now == Spliced(all, i, 2, []);
    }
  }

  lemma HitPlace(all: seq<Cell>, a: seq<Cell>, b: seq<Cell>, c: seq<Cell>)
    requires b != [] && c != [] && Some(all) == Some(a + b + c)
    ensures var i := |a| + |b| - 1;
      && i + 1 < |all| && all[i] == b[|b| - 1]
      && Some(all[i + 2..]) == Some(c[1..]) && Some(all[..i]) == Some(a + b[..|b| - 1])
  {
    var i := |a| + |b| - 1;
    assert all[i + 2..] == c[1..] && all[..i] == a + b[..|b| - 1];
  }

  /** A child is dropped: with the separator behind it, or the last one. */
  lemma DropExactly(t: Tree, r: nat)
    requires t.Node? && 1 <= |t.seps| && |t.kids| == |t.seps| + 1 && r <= |t.seps|
    ensures var a, c := LeftOf(t.kids, t.seps, r), RightOf(t.kids, t.seps, r);
      (r < |t.seps| ==> c != []) && (r == |t.seps| ==> a != [])
      && Some(Cells(Rest(DropChild(t.pno, t.kids, t.seps, r)))) ==
           Some(if r < |t.seps| then a + c[1..] else a[..|a| - 1])
  {
    var kids, seps, n := t.kids, t.seps, |t.seps|;
    if r < n {
      CellsConcat(kids[..r], seps[..r], kids[r + 1..], seps[r + 1..]);
      assert RightOf(kids, seps, r)[1..] == CellsAll(kids[r + 1..], seps[r + 1..]);
      if n == 1 { assert kids[1..] == [kids[1]] && seps[1..] == [] && kids[..0] == [] && seps[..0] == []; }
    } else {
      LastMark(kids, seps, n - 1);
      assert kids[..n] + kids[n + 1..] == kids[..n];
      if n == 1 { assert kids[..1] == [kids[0]] && seps[..0] == []; }
    }
  }

  // ---- where it is not ----

  lemma AroundExactly(t: Tree, x: Ent, r: nat, k: nat, sub: DelResult, res: DelResult) returns (i: nat)
    requires t.Node? && 1 <= |t.seps| && |t.kids| == |t.seps| + 1 && r <= |t.seps|
    requires DelLaw(Cells(t.kids[r]), sub, x, k) && Cells(t.kids[r]) != []
    requires EndsWith(Cells(t.kids[r])[|Cells(t.kids[r])| - 1], Last(t.kids[r]))
    requires r < |t.seps| ==> Last(t.kids[r]) != x
    requires res == DelAround(t.pno, t.kids, t.seps, r, sub)
    ensures DelLaw(Cells(t), res, x, i)
  {
    i := 0;
    if sub == Gone {
      assert r == |t.seps|;
      i := |LeftOf(t.kids, t.seps, r)|;
      GoneExactly(t, x, Cells(t), Cells(Rest(res)));
    } else if sub != Missing {
      i := |LeftOf(t.kids, t.seps, r)| + k;
      KeptExactly(t, x, r, k, sub, Cells(t), Cells(Rest(res)));
    }
  }

  lemma GoneExactly(t: Tree, x: Ent, all: seq<Cell>, now: seq<Cell>)
    requires t.Node? && 1 <= |t.seps| && |t.kids| == |t.seps| + 1 && Cells(t.kids[|t.seps|]) == [Page([x])]
    requires Some(all) == Some(Cells(t)) && Some(now) == Some(Cells(Rest(DropChild(t.pno, t.kids, t.seps, |t.seps|))))
    ensures DeletedFrom(all, now, x, |LeftOf(t.kids, t.seps, |t.seps|)|)
  {
    var n := |t.seps|;
    CellsAt(t.kids, t.seps, n);
    DropExactly(t, n);
    Dropped(all, now, LeftOf(t.kids, t.seps, n), [], x);
  }

  lemma KeptExactly(t: Tree, x: Ent, r: nat, k: nat, sub: DelResult, all: seq<Cell>, now: seq<Cell>)
    requires t.Node? && 1 <= |t.seps| && |t.kids| == |t.seps| + 1 && r <= |t.seps| && (sub.Kept? || sub.Orphan?)
    requires DeletedFrom(Cells(t.kids[r]), Cells(Rest(sub)), x, k) && Cells(t.kids[r]) != []
    requires EndsWith(Cells(t.kids[r])[|Cells(t.kids[r])| - 1], Last(t.kids[r]))
    requires r < |t.seps| ==> Last(t.kids[r]) != x
    requires Some(all) == Some(Cells(t)) && Some(now) == Some(CellsAll(t.kids[r := Rest(sub)], t.seps))
    ensures DeletedFrom(all, now, x, |LeftOf(t.kids, t.seps, r)| + k)
  {
    var a, b, c := LeftOf(t.kids, t.seps, r), Cells(t.kids[r]), RightOf(t.kids, t.seps, r);
    CellsAt(t.kids, t.seps, r);
    CellsReplace(t.kids, t.seps, r, Rest(sub));
    DelIn(all, now, a, b, Cells(Rest(sub)), c, Last(t.kids[r]), x, k);
  }

  /** A deletion in the middle, where x is not the last entry unless nothing follows. */
  lemma DelIn(all: seq<Cell>, now: seq<Cell>, a: seq<Cell>, b: seq<Cell>, b': seq<Cell>, c: seq<Cell>, last: Ent,
              x: Ent, k: nat)
    requires Some(all) == Some(a + b + c) && Some(now) == Some(a + b' + c)
    requires DeletedFrom(b, b', x, k) && EndsWith(b[|b| - 1], last) && (c != [] ==> last != x)
    ensures DeletedFrom(all, now, x, |a| + k)
  {
    var i, es := |a| + k, b[k].es;
    assert all[i] == b[k];
    if k + 1 == |b| && |es| == 1 { assert es[0] == x == last; }
    if |es| > 1 {
      var page := Page(Remove(es, x));
      if k + 1 < |b| && es[|es| - 1] == x {
        SplicedIn(a, b, c, k, 2, [page, Mark(Ent(es[|es| - 2].key, 0))]);
      } else {
        SplicedIn(a, b, c, k, 1, [page]);
      }
    } else if k + 1 < |b| {
      SplicedIn(a, b, c, k, 2, []);
    } else {
      SplicedIn(a, b, c, k - 1, 2, []);
    }
  }

  // ---- insertion ----

  /** Entry x is put at its place on the page at place i. A page that has become too long is cut behind its
      middle entry, which is the separator of the two; no other page or separator changes. */
  ghost predicate InsertedAt(was: seq<Cell>, now: seq<Cell>, x: Ent, cap: nat, i: nat) {
    i < |was| && was[i].Page?
    && var es, n := InsertSorted(was[i].es, x), cap / 2;
       if |es| <= cap then Some(now) == Some(Spliced(was, i, 1, [Page(es)]))
       else n < |es| && Some(now) == Some(Spliced(was, i, 1, [Page(es[..n + 1]), Mark(es[n]), Page(es[n + 1..])]))
  }

  /** It is the first page whose last entry is not before x, or the last page of all. */
  ghost predicate PlaceOf(was: seq<Cell>, x: Ent, i: nat) {
    && i < |was| && was[i].Page? && PagesBelow(was[..i], x)
    && (i + 1 < |was| ==> was[i].es != [] && !Less(was[i].es[|was[i].es| - 1], x))
  }

  ghost predicate PagesBelow(s: seq<Cell>, x: Ent) {
    forall j {:trigger s[j]} :: 0 <= j < |s| && s[j].Page? ==> AllBelow(s[j].es, x)
  }

  ghost function ResultCells(res: InsResult): seq<Cell> {
    match res
    case Done(t, _) => Cells(t)
    case Split(l, up, q, _) => Cells(l) + [Mark(up)] + Cells(q)
    case _ => []
  }

  ghost predicate InsLaw(was: seq<Cell>, res: InsResult, x: Ent, cap: nat, i: nat) {
    res.Done? || res.Split? ==> InsertedAt(was, ResultCells(res), x, cap, i) && PlaceOf(was, x, i)
  }

  /** An insertion, for every index: the page it is made on, and all that becomes of the pages and the
      separators. */
  lemma {:induction false} InsExactly(t: Tree, x: Ent, unique: bool, cap: nat, pagecnt: nat) returns (i: nat)
    requires RootWF(t, cap) && 2 <= cap && Sorted(Flat(t)) && 0 < x.recno
    ensures InsLaw(Cells(t), Ins(t, x, unique, cap, pagecnt), x, cap, i)
    decreases t
  {
    i := 0;
    var r := Pos(Bounds(t), Probe(x, unique));
    if !Hits(Bounds(t), r, x, unique) {
      if t.Leaf? {
        LeafInserts(t, x, unique, cap, pagecnt);
      } else {
        IntoChild(t, x, unique, cap, r);
        i := InsExactly(t.kids[r], x, unique, cap, pagecnt);
        var sub := Ins(t.kids[r], x, unique, cap, pagecnt);
        if sub.Done? || sub.Split? { i := InsAbove(t, x, r, i, sub, cap, Ins(t, x, unique, cap, pagecnt)); }
      }
    }
  }

  /** Where the descent goes on. */
  lemma IntoChild(t: Tree, x: Ent, unique: bool, cap: nat, r: nat)
    requires WF(t, cap) && t.Node? && Sorted(Flat(t)) && r == Pos(Bounds(t), Probe(x, unique))
    requires !Hits(Bounds(t), r, x, unique)
    ensures Sorted(Flat(t.kids[r])) && AllBelow(FlatAll(t.kids[..r]), x)
    ensures r < |t.seps| ==> !Less(Last(t.kids[r]), x)
    ensures Cells(t.kids[r]) != [] && EndsWith(Cells(t.kids[r])[|Cells(t.kids[r])| - 1], Last(t.kids[r]))
  {
    WFShaped(t, cap);
    ScanDescends(t, cap, Probe(x, unique));
    StrictDescent(t, cap, x, unique);
    NextBound(t, x, unique, cap);
    LastPage(t.kids[r], cap);
  }

  lemma LeafInserts(t: Tree, x: Ent, unique: bool, cap: nat, pagecnt: nat)
    requires t.Leaf? && RootWF(t, cap) && 2 <= cap && Sorted(t.es)
    requires !Hits(t.es, Pos(t.es, Probe(x, unique)), x, unique)
    ensures InsLaw(Cells(t), Ins(t, x, unique, cap, pagecnt), x, cap, 0)
  {
    ProbePlace(t.es, x, unique);
    var es, n := InsertSorted(t.es, x), cap / 2;
    assert Spliced(Cells(t), 0, 1, [Page(es)]) == [Page(es)];
    if |es| > cap {
      var m := [Page(es[..n + 1]), Mark(es[n]), Page(es[n + 1..])];
      assert Spliced(Cells(t), 0, 1, m) == m;
      assert [Page(es[..n + 1])] + [Mark(es[n])] + [Page(es[n + 1..])] == m;
    }
  }

  /** Where there is a separator right of the child, the last entry of the child is not before x. */
  lemma NextBound(t: Tree, x: Ent, unique: bool, cap: nat)
    requires WF(t, cap) && t.Node?
    requires !Hits(Bounds(t), Pos(Bounds(t), Probe(x, unique)), x, unique)
    ensures var r := Pos(Bounds(t), Probe(x, unique)); r < |t.seps| ==> !Less(Last(t.kids[r]), x)
  {
    var r := Pos(Bounds(t), Probe(x, unique));
    if r < |t.seps| { assert Bounds(t)[r] == Last(t.kids[r]); }
  }

  /** A non-leaf page passes on what its child became, whether it splits itself or not. */
  lemma InsAbove(t: Tree, x: Ent, r: nat, k: nat, sub: InsResult, cap: nat, res: InsResult) returns (i: nat)
    requires t.Node? && 2 <= cap && 1 <= |t.seps| <= cap && |t.kids| == |t.seps| + 1 && r <= |t.seps|
    requires (sub.Done? || sub.Split?) && InsLaw(Cells(t.kids[r]), sub, x, cap, k)
    requires AllBelow(FlatAll(t.kids[..r]), x) && (r < |t.seps| ==> !Less(Last(t.kids[r]), x))
    requires Cells(t.kids[r]) != [] && EndsWith(Cells(t.kids[r])[|Cells(t.kids[r])| - 1], Last(t.kids[r]))
    requires res == InsAround(t.pno, t.kids, t.seps, r, sub, cap)
    ensures InsLaw(Cells(t), res, x, cap, i)
  {
    i := |LeftOf(t.kids, t.seps, r)| + k;
    if res.Done? || res.Split? {
      AboveInserts(t, x, r, k, sub, cap, res, Cells(t), ResultCells(res), i);
      AbovePlace(t, x, r, k, Cells(t), i);
    }
  }

  lemma AboveInserts(t: Tree, x: Ent, r: nat, k: nat, sub: InsResult, cap: nat, res: InsResult, all: seq<Cell>,
                     now: seq<Cell>, i: nat)
    requires t.Node? && 2 <= cap && 1 <= |t.seps| <= cap && |t.kids| == |t.seps| + 1 && r <= |t.seps|
    requires (sub.Done? || sub.Split?) && InsertedAt(Cells(t.kids[r]), ResultCells(sub), x, cap, k)
    requires res == InsAround(t.pno, t.kids, t.seps, r, sub, cap) && (res.Done? || res.Split?)
    requires Some(all) == Some(Cells(t)) && Some(now) == Some(ResultCells(res))
    requires i == |LeftOf(t.kids, t.seps, r)| + k
    ensures InsertedAt(all, now, x, cap, i)
  {
    CellsAt(t.kids, t.seps, r);
    AroundCells(t, r, sub, cap);
    InsIn(all, now, LeftOf(t.kids, t.seps, r), Cells(t.kids[r]), ResultCells(sub), RightOf(t.kids, t.seps, r), x, cap,
          k);
  }

  lemma AbovePlace(t: Tree, x: Ent, r: nat, k: nat, all: seq<Cell>, i: nat)
    requires t.Node? && |t.kids| == |t.seps| + 1 && r <= |t.seps| && PlaceOf(Cells(t.kids[r]), x, k)
    requires AllBelow(FlatAll(t.kids[..r]), x) && (r < |t.seps| ==> !Less(Last(t.kids[r]), x))
    requires Cells(t.kids[r]) != [] && EndsWith(Cells(t.kids[r])[|Cells(t.kids[r])| - 1], Last(t.kids[r]))
    requires Some(all) == Some(Cells(t)) && i == |LeftOf(t.kids, t.seps, r)| + k
    ensures PlaceOf(all, x, i)
  {
    CellsAt(t.kids, t.seps, r);
    BelowCells(t.kids[..r], t.seps[..r], x);
    PlaceIn(all, LeftOf(t.kids, t.seps, r), Cells(t.kids[r]), RightOf(t.kids, t.seps, r), Last(t.kids[r]), x, k);
  }

  lemma InsIn(all: seq<Cell>, now: seq<Cell>, a: seq<Cell>, b: seq<Cell>, b': seq<Cell>, c: seq<Cell>, x: Ent, cap: nat,
              k: nat)
    requires Some(all) == Some(a + b + c) && InsertedAt(b, b', x, cap, k) && Some(now) == Some(a + b' + c)
    ensures InsertedAt(all, now, x, cap, |a| + k)
  {
    var es, n := InsertSorted(b[k].es, x), cap / 2;
    assert all[|a| + k] == b[k];
    if |es| <= cap { SplicedIn(a, b, c, k, 1, [Page(es)]); }
    else { SplicedIn(a, b, c, k, 1, [Page(es[..n + 1]), Mark(es[n]), Page(es[n + 1..])]); }
  }

  lemma PlaceIn(all: seq<Cell>, a: seq<Cell>, b: seq<Cell>, c: seq<Cell>, last: Ent, x: Ent, k: nat)
    requires Some(all) == Some(a + b + c) && PlaceOf(b, x, k) && EndsWith(b[|b| - 1], last) && PagesBelow(a, x)
    requires c != [] ==> !Less(last, x)
    ensures PlaceOf(all, x, |a| + k)
  {
    var s := all[..|a| + k];
    forall j {:trigger s[j]} | 0 <= j < |s| && s[j].Page? ensures AllBelow(s[j].es, x) {
      if j < |a| { assert s[j] == a[j]; } else { assert s[j] == b[..k][j - |a|]; }
    }
    assert all[|a| + k] == b[k];
  }

  /** The pages of children all of whose entries are before x. */
  lemma {:induction false} BelowCells(kids: seq<Tree>, seps: seq<Ent>, x: Ent)
    requires AllBelow(FlatAll(kids), x)
    ensures PagesBelow(CellsAll(kids, seps), x)
    decreases kids, 0
  {
    if kids != [] {
      var s, a := CellsAll(kids, seps), Cells(kids[0]);
      assert forall i :: 0 <= i < |Flat(kids[0])| ==> FlatAll(kids)[i] == Flat(kids[0])[i];
      BelowTree(kids[0], x);
      if seps != [] {
        var rest := CellsAll(kids[1..], seps[1..]);
        assert forall i :: 0 <= i < |FlatAll(kids[1..])| ==>
          FlatAll(kids)[|Flat(kids[0])| + i] == FlatAll(kids[1..])[i];
        BelowCells(kids[1..], seps[1..], x);
        forall j {:trigger s[j]} | 0 <= j < |s| && s[j].Page? ensures AllBelow(s[j].es, x) {
          if j < |a| { assert s[j] == a[j]; }
          else if j > |a| { assert s[j] == rest[j - |a| - 1]; }
        }
      }
    }
  }

  lemma {:induction false} BelowTree(t: Tree, x: Ent)
    requires AllBelow(Flat(t), x)
    ensures PagesBelow(Cells(t), x)
    decreases t, 1
  {
    if t.Node? { BelowCells(t.kids, t.seps, x); }
  }

  /** A page with one more child, which may itself be cut in two. */
  lemma AroundCells(t: Tree, r: nat, sub: InsResult, cap: nat)
    requires t.Node? && 2 <= cap && 1 <= |t.seps| <= cap && |t.kids| == |t.seps| + 1 && r <= |t.seps|
    requires sub.Done? || sub.Split?
    ensures var res := InsAround(t.pno, t.kids, t.seps, r, sub, cap);
      res.Done? || res.Split? ==>
        Some(ResultCells(res)) == Some(LeftOf(t.kids, t.seps, r) + ResultCells(sub) + RightOf(t.kids, t.seps, r))
  {
    if sub.Done? {
      CellsReplace(t.kids, t.seps, r, sub.t);
    } else {
      var ks := t.kids[..r] + [sub.left, sub.right] + t.kids[r + 1..];
      var ss := t.seps[..r] + [sub.up] + t.seps[r..];
      Widened(t.kids, t.seps, r, sub.left, sub.up, sub.right);
      if |ss| > cap { CutCells(ks, ss, cap / 2); }
    }
  }

  lemma Widened(kids: seq<Tree>, seps: seq<Ent>, r: nat, l: Tree, up: Ent, q: Tree)
    requires |kids| == |seps| + 1 && r <= |seps|
    ensures Some(CellsAll(kids[..r] + [l, q] + kids[r + 1..], seps[..r] + [up] + seps[r..])) ==
      Some(LeftOf(kids, seps, r) + (Cells(l) + [Mark(up)] + Cells(q)) + RightOf(kids, seps, r))
  {
    var ks, ss := [l, q] + kids[r + 1..], [up] + seps[r..];
    CellsConcat(kids[..r], seps[..r], ks, ss);
    assert kids[..r] + ks == kids[..r] + [l, q] + kids[r + 1..] && seps[..r] + ss == seps[..r] + [up] + seps[r..];
    assert ks[1..] == [q] + kids[r + 1..] && ss[1..] == seps[r..];
    CellsReplaceFirst(kids, seps, r, q);
    Regrouped4(LeftOf(kids, seps, r), Cells(l), [Mark(up)], Cells(q), RightOf(kids, seps, r));
  }

  lemma CellsReplaceFirst(kids: seq<Tree>, seps: seq<Ent>, r: nat, q: Tree)
    requires |kids| == |seps| + 1 && r <= |seps|
    ensures Some(CellsAll([q] + kids[r + 1..], seps[r..])) == Some(Cells(q) + RightOf(kids, seps, r))
  {
    var ks := kids[r := q];
    CellsFrom(ks, seps, r);
    assert ks[r..] == [q] + kids[r + 1..] && ks[r + 1..] == kids[r + 1..];
  }

  lemma Regrouped4(a: seq<Cell>, l: seq<Cell>, m: seq<Cell>, q: seq<Cell>, c: seq<Cell>)
    ensures Some(a + (l + m + (q + c))) == Some(a + (l + m + q) + c)
  {
    assert a + (l + m + (q + c)) == a + (l + m + q) + c;
  }

  lemma CutCells(ks: seq<Tree>, ss: seq<Ent>, n: nat)
    requires |ks| == |ss| + 1 && n < |ss|
    ensures Some(CellsAll(ks, ss)) ==
      Some(CellsAll(ks[..n + 1], ss[..n]) + [Mark(ss[n])] + CellsAll(ks[n + 1..], ss[n + 1..]))
  {
    CellsConcat(ks[..n + 1], ss[..n + 1], ks[n + 1..], ss[n + 1..]);
    assert ks[..n + 1] + ks[n + 1..] == ks && ss[..n + 1] + ss[n + 1..] == ss;
    LastMark(ks, ss, n);
  }

  /** A page that splits keeps the first half of what is on it with the new entry, and the rest goes to a
      new page, without the entry that goes up if it is not a leaf. */
  lemma CutInHalf(t: Tree, x: Ent, unique: bool, cap: nat, pagecnt: nat)
    requires RootWF(t, cap) && 2 <= cap && Ins(t, x, unique, cap, pagecnt).Split?
    ensures var Split(l, up, q, next) := Ins(t, x, unique, cap, pagecnt);
      && l.pno == t.pno && q.pno + 1 == next
      && (t.Leaf? ==> l.Leaf? && q.Leaf? && |l.es| == cap / 2 + 1 && |q.es| == cap - cap / 2)
      && (t.Node? ==> l.Node? && q.Node? && |l.seps| == cap / 2 && |q.seps| == cap - cap / 2)
  {
  }

  // ---- page numbers ----

  /** The pages are those there were and, each of them used, the new ones from lo on. */
  ghost predicate Fills(now: set<nat>, was: set<nat>, lo: nat, hi: nat) {
    lo <= hi && forall p :: p in now <==> p in was || lo <= p < hi
  }

  ghost predicate FillsPages(res: InsResult, t: Tree, pagecnt: nat) {
    match res
    case Done(u, next) => Fills(Pnos(u), Pnos(t), pagecnt, next)
    case Split(l, _, q, next) => Fills(Pnos(l) + Pnos(q), Pnos(t), pagecnt, next)
    case _ => true
  }

  lemma {:induction false} InsPages(t: Tree, x: Ent, unique: bool, cap: nat, pagecnt: nat)
    requires RootWF(t, cap) && 2 <= cap
    ensures FillsPages(Ins(t, x, unique, cap, pagecnt), t, pagecnt)
    decreases t
  {
    var r := Pos(Bounds(t), Probe(x, unique));
    if t.Node? && !Hits(Bounds(t), r, x, unique) {
      InsPages(t.kids[r], x, unique, cap, pagecnt);
      PagesAbove(t, r, Ins(t.kids[r], x, unique, cap, pagecnt), cap, pagecnt);
    }
  }

  lemma PagesAbove(t: Tree, r: nat, sub: InsResult, cap: nat, pagecnt: nat)
    requires t.Node? && 2 <= cap && 1 <= |t.seps| <= cap && |t.kids| == |t.seps| + 1 && r <= |t.seps|
    requires FillsPages(sub, t.kids[r], pagecnt)
    ensures FillsPages(InsAround(t.pno, t.kids, t.seps, r, sub, cap), t, pagecnt)
  {
    PnosAt(t.kids, r);
    if sub.Done? {
      var ks := t.kids[r := sub.t];
      PnosAt(ks, r);
      assert ks[..r] == t.kids[..r] && ks[r + 1..] == t.kids[r + 1..];
    } else if sub.Split? {
      PairPages(t.kids, r, sub.left, sub.right);
      var ks := t.kids[..r] + [sub.left, sub.right] + t.kids[r + 1..];
      CutPages(t, ks, t.seps[..r] + [sub.up] + t.seps[r..], cap, pagecnt, sub.next);
    }
  }

  /** Two children in the place of one. */
  lemma PairPages(kids: seq<Tree>, r: nat, l: Tree, q: Tree)
    requires r < |kids|
    ensures PnosAll(kids[..r] + [l, q] + kids[r + 1..]) ==
      PnosAll(kids[..r]) + (Pnos(l) + Pnos(q)) + PnosAll(kids[r + 1..])
  {
    PnosConcat(kids[..r] + [l, q], kids[r + 1..]);
    PnosConcat(kids[..r], [l, q]);
    TwoPages(l, q);
  }

  lemma TwoPages(l: Tree, q: Tree)
    ensures PnosAll([l, q]) == Pnos(l) + Pnos(q)
  {
    assert [l, q][1..] == [q] && [q][1..] == [];
    assert PnosAll([q]) == Pnos(q) + PnosAll([]);
  }

  lemma CutPages(t: Tree, ks: seq<Tree>, ss: seq<Ent>, cap: nat, pagecnt: nat, next: nat)
    requires 2 <= cap && 1 <= |ss| <= cap + 1 && |ks| == |ss| + 1
    requires Fills({t.pno} + PnosAll(ks), Pnos(t), pagecnt, next)
    ensures FillsPages(InsNode(t.pno, ks, ss, cap, next), t, pagecnt)
  {
    if |ss| > cap {
      var n := cap / 2 + 1;
      PnosConcat(ks[..n], ks[n..]);
      assert ks[..n] + ks[n..] == ks;
      OneMorePage({t.pno} + PnosAll(ks), Pnos(t), pagecnt, next);
      var l, q := Node(t.pno, ks[..n], ss[..n - 1]), Node(next, ks[n..], ss[n..]);
      assert Pnos(l) + Pnos(q) == {t.pno} + PnosAll(ks) + {next};
    }
  }

  lemma OneMorePage(now: set<nat>, was: set<nat>, lo: nat, hi: nat)
    requires Fills(now, was, lo, hi)
    ensures Fills(now + {hi}, was, lo, hi + 1)
  {
  }

  // ---- whole files ----

  ghost function CellsOf(f: File): seq<Cell> { if f.root.None? then [] else Cells(f.root.v) }

  /** The same of an index file, which gets a new root page on top when the old one splits. */
  lemma FileInserts(f: File, x: Ent) returns (i: nat)
    requires Sound(f) && 0 < x.recno && Inserted(f, x).Now?
    ensures var g := Inserted(f, x).f;
      if f.root.None? then CellsOf(g) == [Page([x])]
      else InsertedAt(CellsOf(f), CellsOf(g), x, f.cap, i) && PlaceOf(CellsOf(f), x, i)
  {
    i := 0;
    if f.root.Some? {
      i := InsExactly(f.root.v, x, f.unique, f.cap, f.pageCnt);
      var res := Ins(f.root.v, x, f.unique, f.cap, f.pageCnt);
      if res.Split? { PairCells(res.left, res.up, res.right, res.next); }
    }
  }

  lemma PairCells(l: Tree, up: Ent, q: Tree, pno: nat)
    ensures Some(Cells(Node(pno, [l, q], [up]))) == Some(Cells(l) + [Mark(up)] + Cells(q))
  {
    assert [l, q][1..] == [q] && [up][1..] == [];
    assert CellsAll([q], []) == Cells(q);
  }

  lemma FileDeletes(f: File, x: Ent) returns (i: nat)
    requires Sound(f) && Deleted(f, x).Now?
    ensures var g := Deleted(f, x).f;
      if CellsOf(f) == [Page([x])] then g.root == None && g.pageCnt == 1
      else DeletedFrom(CellsOf(f), CellsOf(g), x, i)
  {
    i := DelExactly(f.root.v, x, f.cap);
  }

  /** No page of the file is left unused: those of the index afterwards are those before, and all the new
      ones up to the new number of pages. */
  lemma FilePages(f: File, x: Ent)
    requires Sound(f) && 0 < x.recno && Inserted(f, x).Now?
    ensures var g := Inserted(f, x).f;
      Fills(Pnos(g.root.v), if f.root.None? then {} else Pnos(f.root.v), f.pageCnt, g.pageCnt)
  {
    if f.root.Some? {
      InsPages(f.root.v, x, f.unique, f.cap, f.pageCnt);
      var res := Ins(f.root.v, x, f.unique, f.cap, f.pageCnt);
      if res.Split? {
        TwoPages(res.left, res.right);
        OneMorePage(Pnos(res.left) + Pnos(res.right), Pnos(f.root.v), f.pageCnt, res.next);
      }
    } else {
      OneMorePage({}, {}, f.pageCnt, f.pageCnt);
    }
  }
}
