/**
 * Insertions that the engine refuses with INVALID_ENTRY (server/dbe/page.c:104-106). They are not
 * far to seek: a freshly loaded index that is completely full refuses every entry behind its last.
 */
module Refusals {
  import opened Options
  import opened Entries
  import opened BTree
  import opened Pages
  import opened IndexFile
  import opened IndexOps
  import opened IndexState
  import opened BulkLoad

  /** A page with fewer children than it has room for is not on top of a full tree. */
  lemma NotFull(t: Tree, cap: nat, h: nat)
    requires Loaded(t, cap, h) && 1 <= cap && t.Node? && |t.seps| < cap
    ensures |Flat(t)| < Full(cap, h)
  {
    var k, f := |t.seps|, Full(cap, h - 1);
    LoadedCount(t, cap, h);
    FullMore(cap, h, k);
    FullMore(cap, h, k + 1);
    FullPositive(cap, h - 1);
    MulSplit(k + 1, 1, f);
  }

  /** In a completely full tree every page is. */
  lemma FullPages(t: Tree, cap: nat, h: nat)
    requires Loaded(t, cap, h) && 1 <= cap && |Flat(t)| == Full(cap, h)
    ensures t.Leaf? ==> |t.es| == cap
    ensures t.Node? ==> |t.seps| == cap && |Flat(t.kids[cap])| == Full(cap, h - 1)
  {
    LoadedCount(t, cap, h);
    if t.Node? {
      if |t.seps| < cap { NotFull(t, cap, h); }
      FullMore(cap, h, cap);
    }
  }

  /** A completely full tree with all its entries before x. */
  ghost predicate FullBefore(t: Tree, cap: nat, h: nat, x: Ent) {
    Loaded(t, cap, h) && RootWF(t, cap) && 2 <= cap && |Flat(t)| == Full(cap, h) && Sorted(Flat(t)) && Less(Last(t), x)
  }

  lemma KidLast(t: Tree, cap: nat, h: nat, i: nat, x: Ent)
    requires Loaded(t, cap, h) && Sorted(Flat(t)) && Less(Last(t), x) && t.Node? && i < |t.kids|
    ensures Less(Last(t.kids[i]), x)
  {
    LoadedLast(t, cap, h);
    LoadedLast(t.kids[i], cap, h - 1);
    FlatAt(t.kids, i);
    var s, m := Flat(t), |FlatAll(t.kids[..i])| + |Flat(t.kids[i])| - 1;
    assert s[m] == Last(t.kids[i]);
    assert m < |s| - 1 ==> Less(s[m], s[|s| - 1]);
  }

  /** An entry behind the last is looked for in the last child, all the way down. */
  lemma BehindAll(t: Tree, cap: nat, h: nat, x: Ent)
    requires FullBefore(t, cap, h, x)
    ensures Pos(Bounds(t), x) == |Bounds(t)|
  {
    LoadedLast(t, cap, h);
    forall i | 0 <= i < |Bounds(t)| ensures Less(Bounds(t)[i], x) {
      if t.Node? { KidLast(t, cap, h, i, x); } else if i < |t.es| - 1 { assert Less(t.es[i], t.es[|t.es| - 1]); }
    }
    PosUnique(Bounds(t), x, |Bounds(t)|);
  }

  lemma LastKid(t: Tree, cap: nat, h: nat, x: Ent)
    requires FullBefore(t, cap, h, x) && t.Node?
    ensures |t.seps| == cap && FullBefore(t.kids[cap], cap, h - 1, x) && Pos(Bounds(t), x) == cap
  {
    FullPages(t, cap, h);
    BehindAll(t, cap, h, x);
    KidLast(t, cap, h, cap, x);
    FlatAt(t.kids, cap);
    assert t.kids[cap + 1..] == [];
    assert Flat(t) == FlatAll(t.kids[..cap]) + Flat(t.kids[cap]);
    SuffixSorted(FlatAll(t.kids[..cap]), Flat(t.kids[cap]));
  }

  /** What comes up from a full page that is not a leaf has no record number. */
  lemma {:induction false} FullRises(t: Tree, cap: nat, h: nat, x: Ent)
    requires FullBefore(t, cap, h, x)
    ensures RiseOf(t, x, false, cap).Up?
    ensures h >= 1 ==> RiseOf(t, x, false, cap) == Up(0)
    decreases h
  {
    if t.Node? {
      LastKid(t, cap, h, x);
      FullRises(t.kids[cap], cap, h - 1, x);
    } else {
      FullPages(t, cap, h);
      BehindAll(t, cap, h, x);
    }
  }

  lemma SuffixSorted(a: seq<Ent>, b: seq<Ent>)
    requires Sorted(a + b)
    ensures Sorted(b)
  {
    forall i, j | 0 <= i < j < |b| ensures Less(b[i], b[j]) {
      assert Less((a + b)[|a| + i], (a + b)[|a| + j]);
    }
  }

  /** A completely full loaded index of three levels or more refuses every entry behind its last. */
  lemma FullRefuses(t: Tree, cap: nat, h: nat, x: Ent)
    requires FullBefore(t, cap, h, x) && 2 <= h
    ensures Meets0(t, x, false, cap)
  {
    LastKid(t, cap, h, x);
    FullRises(t.kids[cap], cap, h - 1, x);
  }

  lemma {:induction false} HeightOfFull(cap: nat, h: nat, tpage: nat)
    requires 1 <= tpage && 1 <= cap
    ensures Height(tpage, cap, tpage * Full(cap, h)) == h
    decreases h
  {
    var n := tpage * Full(cap, h);
    if h > 0 {
      FullPositive(cap, h - 1);
      MulAssoc(tpage, cap + 1, Full(cap, h - 1));
      var f := Full(cap, h - 1);
      assert tpage * (cap + 1) * f == tpage * ((cap + 1) * f) == n;
      assert tpage * (cap + 1) <= tpage * (cap + 1) * f;
      assert tpage * cap < tpage * (cap + 1);
      HeightOfFull(cap, h - 1, tpage * (cap + 1));
    }
  }

  /** How many entries that takes: a full page of leaves below each of cap + 1 pointers, and so on. */
  lemma FullIs(cap: nat)
    ensures Full(cap, 0) == cap && Full(cap, 1) == (cap + 1) * cap && Full(cap, 2) == (cap + 1) * ((cap + 1) * cap)
    ensures Full(2, 2) == 18
  {
    assert Full(cap, 1) == (cap + 1) * Full(cap, 0) && Full(cap, 2) == (cap + 1) * Full(cap, 1);
    assert Full(2, 0) == 2 && Full(2, 1) == 6;
  }

  /**
   * Load a stream that fills the index completely and then insert an entry behind the last: the
   * insertion fails. With two entries a page this takes 18 entries.
   */
  method LoadAndAppend(ndx: Index, stream: seq<Ent>, x: Ent, ghost h: nat) returns (rc: Code)
    requires 2 <= ndx.cap && !ndx.unique && Sorted(stream) && (forall i :: 0 <= i < |stream| ==> 0 < stream[i].recno)
    requires 0 < ndx.pageCnt && ndx.pages == map[]
    requires 2 <= h && |stream| == Full(ndx.cap, h) && 0 < x.recno && stream != [] && Less(stream[|stream| - 1], x)
    modifies ndx
    ensures rc == INVALID_ENTRY
  {
    HeightOfFull(ndx.cap, h, 1);
    assert Height(1, ndx.cap, |stream|) == h;
    FullNotLone(ndx.cap, h);
    var ok := QIndex(ndx, stream);
    StreamRefuses(ndx, stream, x, h);
    rc := InsertNew(ndx, Slot(0, x.recno, x.key));
  }

  lemma StreamRefuses(ndx: Index, stream: seq<Ent>, x: Ent, h: nat)
    requires ndx.Valid() && ndx.rootNo != 0 && !ndx.unique && ndx.Entries() == stream && Loaded(ndx.tree, ndx.cap, h)
    requires 2 <= h && |stream| == Full(ndx.cap, h) && stream != [] && Less(stream[|stream| - 1], x)
    ensures Refuses(FileOf(ndx), x)
  {
    LoadedLast(ndx.tree, ndx.cap, h);
    FullRefuses(ndx.tree, ndx.cap, h, x);
    forall i | 0 <= i < |stream| ensures stream[i] != x {
      if i < |stream| - 1 { assert Less(stream[i], stream[|stream| - 1]); }
    }
  }

  // ---- a change of key that is refused ----

  function Two(pno: nat, a: nat): Tree { Leaf(pno, [Ent(a, a), Ent(a + 1, a + 1)]) }

  /** The third child of the root below: a full page over full leaves. */
  const THIRD: Tree := Node(12, [Two(5, 9), Two(6, 11), Two(7, 13)], [Ent(10, 10), Ent(12, 12)])

  /** An index of 14 records, each with its number as key, two entries a page. */
  const ROOT: Tree :=
    Node(10, [Node(8, [Two(1, 1), Two(2, 3)], [Ent(2, 2)]), Node(9, [Two(3, 5), Two(4, 7)], [Ent(6, 6)]), THIRD],
         [Ent(4, 4), Ent(8, 8)])

  const FULL14: File := File(2, false, Some(ROOT), 13)

  /** The third child without record 12: the separator that had its key has lost its record number. */
  const LESS: Tree := Node(12, [Two(5, 9), Leaf(6, [Ent(11, 11)]), Two(7, 13)], [Ent(10, 10), Ent(11, 0)])

  lemma SortedTwo(p: nat, a: nat)
    requires p > 0 && a > 0
    ensures Flat(Two(p, a)) == [Ent(a, a), Ent(a + 1, a + 1)] && WF(Two(p, a), 2)
    ensures Last(Two(p, a)) == Ent(a + 1, a + 1)
  {
  }

  /** A page over others that are well-formed. */
  lemma Over(pno: nat, kids: seq<Tree>, seps: seq<Ent>)
    requires 0 < pno && 1 <= |seps| <= 2 && |kids| == |seps| + 1
    requires forall i :: 0 <= i < |kids| ==> WF(kids[i], 2)
    requires forall i :: 0 <= i < |seps| ==> seps[i].key == Last(kids[i]).key
    ensures WF(Node(pno, kids, seps), 2) && Last(Node(pno, kids, seps)) == Last(kids[|seps|])
  {
  }

  lemma FlatThree(a: Tree, b: Tree, c: Tree)
    ensures FlatAll([a, b, c]) == Flat(a) + Flat(b) + Flat(c)
  {
    assert [a, b, c][1..] == [b, c];
    FlatPair(b, c);
  }

  lemma ThirdIs()
    ensures WF(THIRD, 2) && Last(THIRD) == Ent(14, 14)
    ensures Flat(THIRD) == [Ent(9, 9), Ent(10, 10), Ent(11, 11), Ent(12, 12), Ent(13, 13), Ent(14, 14)]
    ensures WF(LESS, 2) && Last(LESS) == Ent(14, 14)
  {
    SortedTwo(5, 9);
    SortedTwo(6, 11);
    SortedTwo(7, 13);
    Over(12, THIRD.kids, THIRD.seps);
    Over(12, LESS.kids, LESS.seps);
    FlatThree(Two(5, 9), Two(6, 11), Two(7, 13));
  }

  lemma OthersAre()
    ensures var a, b := ROOT.kids[0], ROOT.kids[1];
      && WF(a, 2) && Last(a) == Ent(4, 4) && WF(b, 2) && Last(b) == Ent(8, 8)
      && Flat(a) == [Ent(1, 1), Ent(2, 2), Ent(3, 3), Ent(4, 4)]
      && Flat(b) == [Ent(5, 5), Ent(6, 6), Ent(7, 7), Ent(8, 8)]
  {
    var a, b := ROOT.kids[0], ROOT.kids[1];
    SortedTwo(1, 1);
    SortedTwo(2, 3);
    SortedTwo(3, 5);
    SortedTwo(4, 7);
    Over(8, a.kids, a.seps);
    Over(9, b.kids, b.seps);
    FlatPair(Two(1, 1), Two(2, 3));
    FlatPair(Two(3, 5), Two(4, 7));
  }

  /** Such an index may be: its pages are well-formed and its entries in order. */
  lemma FullIsSound()
    ensures Sound(FULL14)
  {
    OthersAre();
    ThirdIs();
    Over(10, ROOT.kids, ROOT.seps);
    RootFlat();
    PagesDiffer();
  }

  lemma PagesDiffer()
    ensures Apart(ROOT) && AllUnder(Pnos(ROOT), 13)
  {
    ChildPages();
    ThreePages(10, ROOT.kids[0], ROOT.kids[1], THIRD, ROOT.seps);
  }

  lemma ChildPages()
    ensures Apart(ROOT.kids[0]) && Pnos(ROOT.kids[0]) == {8, 1, 2}
    ensures Apart(ROOT.kids[1]) && Pnos(ROOT.kids[1]) == {9, 3, 4}
    ensures Apart(THIRD) && Pnos(THIRD) == {12, 5, 6, 7}
  {
    ThreePages(12, Two(5, 9), Two(6, 11), Two(7, 13), THIRD.seps);
    TwoPages(8, Two(1, 1), Two(2, 3), [Ent(2, 2)]);
    TwoPages(9, Two(3, 5), Two(4, 7), [Ent(6, 6)]);
  }

  lemma TwoPages(pno: nat, a: Tree, b: Tree, seps: seq<Ent>)
    requires Apart(a) && Apart(b) && Pnos(a) !! Pnos(b) && pno !in Pnos(a) + Pnos(b)
    ensures Apart(Node(pno, [a, b], seps)) && Pnos(Node(pno, [a, b], seps)) == {pno} + Pnos(a) + Pnos(b)
  {
    PairApart([], a, b, []);
    assert [] + [a, b] + [] == [a, b];
  }

  lemma ThreePages(pno: nat, a: Tree, b: Tree, c: Tree, seps: seq<Ent>)
    requires Apart(a) && Apart(b) && Apart(c) && Pnos(a) !! Pnos(b) && Pnos(a) !! Pnos(c) && Pnos(b) !! Pnos(c)
    requires pno !in Pnos(a) + Pnos(b) + Pnos(c)
    ensures Apart(Node(pno, [a, b, c], seps))
    ensures Pnos(Node(pno, [a, b, c], seps)) == {pno} + Pnos(a) + Pnos(b) + Pnos(c)
  {
    PairApart([], b, c, []);
    assert [] + [b, c] + [] == [b, c] == [a, b, c][1..];
  }

  /** Record 12 is the last of its leaf. */
  lemma Without12()
    ensures RootWF(THIRD, 2) && Del(THIRD, Ent(12, 12), 2) == Kept(LESS)
    ensures RootWF(ROOT, 2) && Del(ROOT, Ent(12, 12), 2) == Kept(Node(10, ROOT.kids[2 := LESS], ROOT.seps))
  {
    var x := Ent(12, 12);
    ThirdIs();
    OthersAre();
    Over(10, ROOT.kids, ROOT.seps);
    assert Bounds(THIRD) == [Ent(10, 10), Ent(12, 12)];
    PosUnique(Bounds(THIRD), x, 1);
    assert [Ent(11, 11), Ent(12, 12)][..1] == [Ent(11, 11)];
    assert Trim(Two(6, 11), 2) == Trimmed(Leaf(6, [Ent(11, 11)]), Ent(11, 0));
    assert THIRD.kids[1 := Leaf(6, [Ent(11, 11)])] == LESS.kids && THIRD.seps[1 := Ent(11, 0)] == LESS.seps;
    assert Bounds(ROOT) == [Ent(4, 4), Ent(8, 8)];
    PosUnique(Bounds(ROOT), x, 2);
  }

  /** The new entry belongs to the last leaf, which is full, as are the pages above it. */
  lemma Rises()
    ensures RootWF(LESS, 2) && RiseOf(LESS, Ent(15, 12), false, 2) == Up(0)
  {
    var x := Ent(15, 12);
    ThirdIs();
    assert Bounds(LESS) == [Ent(10, 10), Ent(11, 11)];
    PosUnique(Bounds(LESS), x, 2);
    PosUnique(Two(7, 13).es, x, 2);
    assert (Two(7, 13).es[..2] + [x] + Two(7, 13).es[2..])[1] == Ent(14, 14);
    assert RiseOf(Two(7, 13), x, false, 2) == Up(14);
  }

  lemma NotThere(s: seq<Ent>, y: Ent, x: Ent)
    requires x !in s && Present(s, y)
    ensures x !in Remove(s, y)
  {
  }

  lemma RootFlat()
    ensures |Flat(ROOT)| == 14 && forall i :: 0 <= i < 14 ==> Flat(ROOT)[i] == Ent(i + 1, i + 1)
  {
    OthersAre();
    ThirdIs();
    FlatThree(ROOT.kids[0], ROOT.kids[1], THIRD);
  }

  /** The index without record 12. */
  const ROOT13: Tree := Node(10, ROOT.kids[2 := LESS], ROOT.seps)

  lemma Meets15()
    ensures RootWF(ROOT13, 2) && Meets0(ROOT13, Ent(15, 12), false, 2)
  {
    OthersAre();
    ThirdIs();
    Over(10, ROOT13.kids, ROOT13.seps);
    Rises();
    assert Bounds(ROOT13) == [Ent(4, 4), Ent(8, 8)];
    PosUnique(Bounds(ROOT13), Ent(15, 12), 2);
  }

  lemma Left13()
    ensures Sound(FULL14) && Dropped(FULL14, 12, Some(12)) == Now(FULL14.(root := Some(ROOT13)))
    ensures Ent(15, 12) !in Flat(ROOT13)
  {
    FullIsSound();
    RootFlat();
    Without12();
    DeletedIs(FULL14, Ent(12, 12));
    NotThere(Flat(ROOT), Ent(12, 12), Ent(15, 12));
  }

  lemma Refused12()
    ensures Sound(FULL14) && RefusesChange(FULL14, 12, Some(12), Some(15))
  {
    Left13();
    Meets15();
  }

  /** Record 12 changes its key from 12 to 15, which the index refuses. */
  method ChangeRefused(ndx: Index) returns (rc: Code)
    requires ndx.Valid() && FileOf(ndx) == FULL14
    modifies ndx
    ensures rc == INVALID_ENTRY
  {
    Refused12();
    rc := RemoveOldInsertNew(ndx, 12, Some(12), Some(15));
  }
}
