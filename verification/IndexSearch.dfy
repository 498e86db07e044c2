/** Search and forward traversal of an index: positions of the cursor in the ordered entries,
    exact search, and stepping from leaf to leaf. */
module IndexSearch {
  import opened Entries
  import opened BTree
  import opened Pages
  import opened IndexFile

  // ---------------------------------------------------------------- positions

  /** Entry e of leaf page pno is number i of the leaf entries of t. */
  ghost predicate At(t: Tree, pno: nat, e: nat, i: nat)
    decreases t, 1
  {
    match t
    case Leaf(p, es) => pno == p && e == i < |es|
    case Node(_, kids, _) => AtAll(kids, pno, e, i)
  }

  ghost predicate AtAll(ks: seq<Tree>, pno: nat, e: nat, i: nat)
    decreases ks, 0
  {
    ks != [] &&
    if i < |Flat(ks[0])| then At(ks[0], pno, e, i) else AtAll(ks[1..], pno, e, i - |Flat(ks[0])|)
  }

  /** u is a subtree of t whose leaf entries start at number off. */
  ghost predicate SubAt(t: Tree, u: Tree, off: nat)
    decreases t, 0
  {
    (t == u && off == 0)
    || (t.Node? && exists r :: 0 <= r < |t.kids| && SubAtKid(t.kids, r, u, off))
  }

  ghost predicate SubAtKid(kids: seq<Tree>, r: nat, u: Tree, off: nat)
    requires r < |kids|
    decreases kids[r], 1
  {
    var n := |FlatAll(kids[..r])|;
    n <= off && SubAt(kids[r], u, off - n)
  }

  /** Leaf entry number i of t is the last one of its page. */
  ghost predicate EndsLeaf(t: Tree, i: nat)
    decreases t, 1
  {
    match t
    case Leaf(_, es) => i + 1 == |es|
    case Node(_, kids, _) => EndsLeafAll(kids, i)
  }

  ghost predicate EndsLeafAll(ks: seq<Tree>, i: nat)
    decreases ks, 0
  {
    ks != [] &&
    if i < |Flat(ks[0])| then EndsLeaf(ks[0], i) else EndsLeafAll(ks[1..], i - |Flat(ks[0])|)
  }

  /** Within child r positions count from the start of that child. */
  lemma {:induction false} AtKid(ks: seq<Tree>, r: nat, pno: nat, e: nat, i: nat)
    requires r < |ks| && i < |Flat(ks[r])|
    ensures AtAll(ks, pno, e, |FlatAll(ks[..r])| + i) <==> At(ks[r], pno, e, i)
    ensures EndsLeafAll(ks, |FlatAll(ks[..r])| + i) <==> EndsLeaf(ks[r], i)
    decreases r
  {
    if r > 0 {
      AtKid(ks[1..], r - 1, pno, e, i);
      assert ks[1..][..r - 1] == ks[..r][1..];
    }
  }

  lemma {:induction false} AtIn(t: Tree, pno: nat, e: nat, i: nat)
    requires At(t, pno, e, i)
    ensures i < |Flat(t)|
    decreases t, 1
  {
    if t.Node? { AtAllIn(t.kids, pno, e, i); }
  }

  lemma {:induction false} AtAllIn(ks: seq<Tree>, pno: nat, e: nat, i: nat)
    requires AtAll(ks, pno, e, i)
    ensures i < |FlatAll(ks)|
    decreases ks, 0
  {
    if i >= |Flat(ks[0])| { AtAllIn(ks[1..], pno, e, i - |Flat(ks[0])|); }
  }

  /** A cursor in a subtree is a cursor in the tree, shifted. */
  lemma {:induction false} SubAtAt(t: Tree, u: Tree, off: nat, pno: nat, e: nat, i: nat)
    requires SubAt(t, u, off) && At(u, pno, e, i)
    ensures At(t, pno, e, off + i)
    decreases t
  {
    if !(t == u && off == 0) {
      var r :| 0 <= r < |t.kids| && SubAtKid(t.kids, r, u, off);
      var n := |FlatAll(t.kids[..r])|;
      SubAtAt(t.kids[r], u, off - n, pno, e, i);
      AtIn(t.kids[r], pno, e, off - n + i);
      AtKid(t.kids, r, pno, e, off - n + i);
    }
  }

  // ---------------------------------------------------------------- exact search

  /** The answer of an exact search over a sorted run: with record number 0 any entry of the
      key will do, and the first one is meant. */
  ghost predicate Matches(s: seq<Ent>, x: Ent) {
    var k := Pos(s, x);
    k < |s| && s[k].key == x.key && (x.recno == 0 || s[k].recno == x.recno)
  }

  /** Left of a separator the place of x is inside the child. */
  lemma PosInside(t: Tree, cap: nat, x: Ent)
    requires Shaped(t, cap) && t.Node?
    ensures var r := Pos(Bounds(t), x);
            r < |t.seps| ==> Pos(Flat(t.kids[r]), x) < |Flat(t.kids[r])|
  {
    var r := Pos(Bounds(t), x);
    LastIsFlatLast(t.kids[r], cap);
    assert r < |t.seps| ==> Bounds(t)[r] == Last(t.kids[r]);
  }

  /** The search ends in the child where the scan stops. */
  lemma MatchesBelow(t: Tree, cap: nat, x: Ent)
    requires Shaped(t, cap) && t.Node? && Sorted(Flat(t))
    ensures var r := Pos(Bounds(t), x);
            var k := Pos(Flat(t.kids[r]), x);
            && Sorted(Flat(t.kids[r]))
            && (Matches(Flat(t), x) <==> Matches(Flat(t.kids[r]), x))
            && Pos(Flat(t), x) == |FlatAll(t.kids[..r])| + k
            && (k < |Flat(t.kids[r])| ==>
                 Pos(Flat(t), x) < |Flat(t)| && Flat(t)[Pos(Flat(t), x)] == Flat(t.kids[r])[k])
  {
    var r := Pos(Bounds(t), x);
    ScanDescends(t, cap, x);
    FlatAt(t.kids, r);
    PosMid(FlatAll(t.kids[..r]), Flat(t.kids[r]), FlatAll(t.kids[r + 1..]), x);
    PosInside(t, cap, x);
    assert r == |t.seps| ==> t.kids[r + 1..] == [];
  }

  /** Without a match in a sorted run there is no entry of that key and record number at all;
      with one, it is the first. */
  lemma MatchesMeaning(s: seq<Ent>, x: Ent)
    requires Sorted(s) && forall i :: 0 <= i < |s| ==> 0 < s[i].recno
    ensures Matches(s, x) <==>
              exists i :: 0 <= i < |s| && s[i].key == x.key && (x.recno == 0 || s[i].recno == x.recno)
    ensures Matches(s, x) ==>
              forall i :: 0 <= i < Pos(s, x) ==> !(s[i].key == x.key && (x.recno == 0 || s[i].recno == x.recno))
  {
    if exists i :: 0 <= i < |s| && s[i].key == x.key && (x.recno == 0 || s[i].recno == x.recno) {
      var i :| 0 <= i < |s| && s[i].key == x.key && (x.recno == 0 || s[i].recno == x.recno);
      var k := Pos(s, x);
      if k < i { assert Less(s[k], s[i]); }
      assert Matches(s, x);
    }
  }

  /** Find target below page pno, mode TEQUAL. The cursor moves to the entry that is found. */
  method BtSrch(ndx: Index, pno: nat, target: Slot, ghost t: Tree) returns (n3: nat)
    requires pno != 0 ==> t.pno == pno && RootShaped(t, ndx.cap) && Holds(ndx.pages, t, ndx.pageCnt) && Sorted(Flat(t))
    modifies ndx`pageNo, ndx`entryNo
    ensures pno == 0 ==> n3 == 0
    ensures pno != 0 && Matches(Flat(t), Rec(target)) ==>
      var k := Pos(Flat(t), Rec(target));
      n3 == Flat(t)[k].recno && At(t, ndx.pageNo, ndx.entryNo, k)
    ensures pno == 0 || !Matches(Flat(t), Rec(target)) ==>
      n3 == 0 && ndx.pageNo == old(ndx.pageNo) && ndx.entryNo == old(ndx.entryNo)
    decreases t, if pno == 0 then 0 else 1, 1
  {
    if pno == 0 {
      return 0;
    }
    ImageFits(t, ndx.cap);
    assert t.pno in Pnos(t);
    var p := ndx.GetPage(pno);
    var r, e := SearchScan(ndx, p, target, t);
    PtrOf(t, ndx.cap, r);
    var pn3 := p.slot[r].pno;
    assert pn3 == p.slot[..][r].pno;
    if e == 0 && pn3 == 0 {
      assert Rec(p.slot[..][r]) == t.es[r];
      ndx.pageNo, ndx.entryNo := pno, r;
      return p.slot[r].recno;
    }
    n3 := SrchBelow(ndx, pn3, target, t, r);
  }

  /** The descent of btsrch into child r; below a leaf there is nothing. */
  method SrchBelow(ndx: Index, pn3: nat, target: Slot, ghost t: Tree, ghost r: nat) returns (n3: nat)
    requires RootShaped(t, ndx.cap) && Holds(ndx.pages, t, ndx.pageCnt) && Sorted(Flat(t))
    requires r == Pos(Bounds(t), Rec(target)) && pn3 == ImageOf(t).ptrs[r]
    requires t.Leaf? ==> !Matches(t.es, Rec(target))
    modifies ndx`pageNo, ndx`entryNo
    ensures Matches(Flat(t), Rec(target)) ==>
      var k := Pos(Flat(t), Rec(target));
      n3 == Flat(t)[k].recno && At(t, ndx.pageNo, ndx.entryNo, k)
    ensures !Matches(Flat(t), Rec(target)) ==>
      n3 == 0 && ndx.pageNo == old(ndx.pageNo) && ndx.entryNo == old(ndx.entryNo)
    decreases t, 1, 0
  {
    PtrOf(t, ndx.cap, r);
    if t.Node? {
      HoldsKid(ndx.pages, t, ndx.pageCnt, r);
      MatchesBelow(t, ndx.cap, Rec(target));
    }
    n3 := BtSrch(ndx, pn3, target, if t.Leaf? then t else t.kids[r]);
    if t.Node? && Matches(Flat(t), Rec(target)) {
      AtKid(t.kids, r, ndx.pageNo, ndx.entryNo, Pos(Flat(t.kids[r]), Rec(target)));
    }
  }

  /** The scan of btsrch: the place r of target; e is 0 if the entry there is one to stop at. */
  method SearchScan(ndx: Index, p: PageBuf, target: Slot, ghost t: Tree) returns (r: nat, e: int)
    requires RootShaped(t, ndx.cap) && Rep(ndx.pages, t) && AllUnder(Pnos(t), ndx.pageCnt)
    requires p.Holds(ImageOf(t)) && p.slot.Length == ndx.cap + 1
    ensures r <= p.cnt && r == Pos(Bounds(t), Rec(target))
    ensures t.Leaf? ==> (e == 0 <==> Matches(t.es, Rec(target)))
  {
    ghost var b, y := Bounds(t), Rec(target);
    e := 1;
    r := 0;
    while e > 0 && r < p.cnt
      invariant r <= p.cnt == |b|
      invariant forall i :: 0 <= i < r ==> Less(b[i], y)
      invariant e <= 0 ==> r < p.cnt && !Less(b[r], y)
      invariant e <= 0 ==> (e == 0 <==> b[r].key == y.key && (y.recno == 0 || b[r].recno == y.recno))
      decreases p.cnt - r, e
    {
      if target.recno != 0 {
        e := ndx.Compare(p, r, target, t);
      } else {
        assert Rec(p.slot[..][r]) == ImageOf(t).ents[r];
        e := Cmp(target.key, p.slot[r].key);
      }
      if e > 0 { r := r + 1; }
    }
    PosUnique(b, y, r);
  }

  // ---------------------------------------------------------------- forward traversal

  /** Find the page from which to go on after target, the last entry of its leaf: it starts the
      subtree right of the one separator that stands for target. 0 means target is the very last. */
  method BtXrch(ndx: Index, pn: nat, target: Slot, ghost t: Tree, ghost i: nat)
    returns (np: nat, ghost u: Tree)
    requires t.pno == pn && Shaped(t, ndx.cap) && Holds(ndx.pages, t, ndx.pageCnt) && Sorted(Flat(t))
    requires i < |Flat(t)| && Flat(t)[i] == Rec(target) && EndsLeaf(t, i)
    ensures np == 0 <==> i + 1 == |Flat(t)|
    ensures np != 0 ==> u.pno == np && Shaped(u, ndx.cap) && Holds(ndx.pages, u, ndx.pageCnt)
                        && SubAt(t, u, i + 1) && Flat(u) != [] && Flat(u)[0] == Flat(t)[i + 1]
    decreases t, 1
  {
    u := t;
    ImageFits(t, ndx.cap);
    assert t.pno in Pnos(t);
    var p := ndx.GetPage(pn);
    PtrOf(t, ndx.cap, 0);
    assert p.slot[..][0].pno == ImageOf(t).ptrs[0];
    if p.slot[0].pno == 0 {
      return 0, t;
    }
    var r, found := ndx.DelScan(p, target, t);
    if found {
      np := p.slot[r + 1].pno;
      assert np == p.slot[..][r + 1].pno;
      u := t.kids[r + 1];
      KidHeld(ndx.pages, t, ndx.pageCnt, ndx.cap, r + 1);
      NextChild(t, ndx.cap, Rec(target), i);
    } else {
      var ppn := p.slot[r].pno;
      assert ppn == p.slot[..][r].pno;
      KidHeld(ndx.pages, t, ndx.pageCnt, ndx.cap, r);
      np, u := XrchBelow(ndx, ppn, target, t, r, i);
    }
  }

  /** The descent of btxrch into child r, which target does not close. */
  method XrchBelow(ndx: Index, ppn: nat, target: Slot, ghost t: Tree, ghost r: nat, ghost i: nat)
    returns (np: nat, ghost u: Tree)
    requires t.Node? && Shaped(t, ndx.cap) && Holds(ndx.pages, t, ndx.pageCnt) && Sorted(Flat(t))
    requires i < |Flat(t)| && Flat(t)[i] == Rec(target) && EndsLeaf(t, i)
    requires r == Pos(Bounds(t), Rec(target)) && !Hits(Bounds(t), r, Rec(target), false)
    requires ppn == t.kids[r].pno && Shaped(t.kids[r], ndx.cap) && Holds(ndx.pages, t.kids[r], ndx.pageCnt)
    ensures np == 0 <==> i + 1 == |Flat(t)|
    ensures np != 0 ==> u.pno == np && Shaped(u, ndx.cap) && Holds(ndx.pages, u, ndx.pageCnt)
                        && SubAt(t, u, i + 1) && Flat(u) != [] && Flat(u)[0] == Flat(t)[i + 1]
    decreases t, 0
  {
    InChild(t, ndx.cap, Rec(target), i);
    ghost var n := |FlatAll(t.kids[..r])|;
    np, u := BtXrch(ndx, ppn, target, t.kids[r], i - n);
    if np != 0 {
      assert SubAtKid(t.kids, r, u, i + 1);
    }
  }

  lemma KidHeld(pages: map<nat, Image>, t: Tree, pageCnt: nat, cap: nat, r: nat)
    requires Shaped(t, cap) && t.Node? && Holds(pages, t, pageCnt) && r < |t.kids|
    ensures ImageOf(t).ptrs[r] == t.kids[r].pno != 0
    ensures Shaped(t.kids[r], cap) && Holds(pages, t.kids[r], pageCnt)
  {
    PtrOf(t, cap, r);
    HoldsKid(pages, t, pageCnt, r);
  }


  /** target is entry i of t, and not the last of child r unless r is the last child. */
  lemma InChild(t: Tree, cap: nat, x: Ent, i: nat)
    requires Shaped(t, cap) && t.Node? && Sorted(Flat(t)) && i < |Flat(t)| && Flat(t)[i] == x && EndsLeaf(t, i)
    requires !Hits(Bounds(t), Pos(Bounds(t), x), x, false)
    ensures var r := Pos(Bounds(t), x);
            var n, b := |FlatAll(t.kids[..r])|, Flat(t.kids[r]);
            && n <= i < n + |b| && b[i - n] == x && EndsLeaf(t.kids[r], i - n) && Sorted(b)
            && (i + 1 == |Flat(t)| <==> i - n + 1 == |b|)
            && (i + 1 < |Flat(t)| ==> Flat(t)[i + 1] == b[i - n + 1])
  {
    var r := Pos(Bounds(t), x);
    var n := |FlatAll(t.kids[..r])|;
    ScanDescends(t, cap, x);
    LocateIn(t.kids, r, x, i);
    AtKid(t.kids, r, 0, 0, i - n);
    LastIsFlatLast(t.kids[r], cap);
    if r < |t.seps| {
      assert Bounds(t)[r] == Last(t.kids[r]);
    } else {
      assert t.kids[r + 1..] == [];
    }
  }

  /** The child where the scan stops contains entry i. */
  lemma LocateIn(ks: seq<Tree>, r: nat, x: Ent, i: nat)
    requires Descends(ks, r, x) && i < |FlatAll(ks)| && FlatAll(ks)[i] == x
    ensures var n, b, c := |FlatAll(ks[..r])|, Flat(ks[r]), FlatAll(ks[r + 1..]);
            && n <= i < n + |b| && b[i - n] == x
            && |FlatAll(ks)| == n + |b| + |c|
            && (i + 1 < n + |b| ==> FlatAll(ks)[i + 1] == b[i - n + 1])
  {
    FlatAt(ks, r);
    MidIndex(FlatAll(ks[..r]), Flat(ks[r]), FlatAll(ks[r + 1..]), x, i);
  }

  /** Between entries before x and entries after it, x stands in the middle. */
  lemma MidIndex(a: seq<Ent>, b: seq<Ent>, c: seq<Ent>, x: Ent, i: nat)
    requires AllBelow(a, x) && AllAbove(c, x) && i < |a + b + c| && (a + b + c)[i] == x
    ensures |a| <= i < |a| + |b| && b[i - |a|] == x
    ensures i + 1 < |a| + |b| ==> (a + b + c)[i + 1] == b[i + 1 - |a|]
  {
  }

  /** target is the last entry of child r, r not the last: the next entry starts child r + 1. */
  lemma NextChild(t: Tree, cap: nat, x: Ent, i: nat)
    requires Shaped(t, cap) && t.Node? && Sorted(Flat(t)) && i < |Flat(t)| && Flat(t)[i] == x
    requires Hits(Bounds(t), Pos(Bounds(t), x), x, false)
    ensures var r := Pos(Bounds(t), x);
            && i + 1 < |Flat(t)| && Flat(t.kids[r + 1]) != [] && Flat(t.kids[r + 1])[0] == Flat(t)[i + 1]
            && SubAt(t, t.kids[r + 1], i + 1)
  {
    var r := Pos(Bounds(t), x);
    EndOfChild(t, cap, x, i);
    StartOfChild(t.kids, r + 1, cap);
    assert SubAt(t.kids[r + 1], t.kids[r + 1], 0);
    assert SubAtKid(t.kids, r + 1, t.kids[r + 1], i + 1);
  }

  lemma StartOfChild(ks: seq<Tree>, r: nat, cap: nat)
    requires r < |ks| && Shaped(ks[r], cap)
    ensures var n := |FlatAll(ks[..r])|;
            n < |FlatAll(ks)| && Flat(ks[r]) != [] && FlatAll(ks)[n] == Flat(ks[r])[0]
  {
    FlatAt(ks, r);
    LastIsFlatLast(ks[r], cap);
  }

  lemma EndOfChild(t: Tree, cap: nat, x: Ent, i: nat)
    requires Shaped(t, cap) && t.Node? && Sorted(Flat(t)) && i < |Flat(t)| && Flat(t)[i] == x
    requires Hits(Bounds(t), Pos(Bounds(t), x), x, false)
    ensures |FlatAll(t.kids[..Pos(Bounds(t), x) + 1])| == i + 1
  {
    var r, ks := Pos(Bounds(t), x), t.kids;
    ScanDescends(t, cap, x);
    LocateIn(ks, r, x, i);
    LastIsFlatLast(ks[r], cap);
    var b, j := Flat(ks[r]), i - |FlatAll(ks[..r])|;
    assert Bounds(t)[r] == Last(ks[r]) == x;
    assert b[|b| - 1] == x && b[j] == x;
    SortedLast(b, j);
    PrefixLength(ks, r);
  }

  lemma SortedLast(b: seq<Ent>, j: nat)
    requires Sorted(b) && j < |b| && b[j] == b[|b| - 1]
    ensures j == |b| - 1
  {
  }

  lemma PrefixLength(ks: seq<Tree>, r: nat)
    requires r < |ks|
    ensures |FlatAll(ks[..r + 1])| == |FlatAll(ks[..r])| + |Flat(ks[r])|
  {
    FlatAt(ks[..r + 1], r);
    assert ks[..r + 1][..r] == ks[..r] && ks[..r + 1][r + 1..] == [];
  }

  /** Follow the first children down to a leaf and put the cursor on its first entry. */
  method GoLeftmost(ndx: Index, pn0: nat, ghost t: Tree) returns (e: Slot)
    requires t.pno == pn0 && Shaped(t, ndx.cap) && Holds(ndx.pages, t, ndx.pageCnt)
    modifies ndx`pageNo, ndx`entryNo
    ensures Flat(t) != [] && Rec(e) == Flat(t)[0] && At(t, ndx.pageNo, ndx.entryNo, 0)
  {
    var pn := pn0;
    ghost var u := t;
    ImageFits(t, ndx.cap);
    LastIsFlatLast(t, ndx.cap);
    assert t.pno in Pnos(t);
    var p := ndx.GetPage(pn);
    PtrOf(t, ndx.cap, 0);
    assert p.slot[..][0].pno == ImageOf(t).ptrs[0];
    while p.slot[0].pno != 0
      invariant Shaped(u, ndx.cap) && Holds(ndx.pages, u, ndx.pageCnt) && SubAt(t, u, 0) && u.pno == pn
      invariant Flat(t) != [] && Flat(u) != [] && Flat(u)[0] == Flat(t)[0]
      invariant fresh(p) && fresh(p.slot) && p.slot.Length == ndx.cap + 1 && p.Holds(ImageOf(u))
      invariant p.slot[0].pno == ImageOf(u).ptrs[0] && (p.slot[0].pno == 0 <==> u.Leaf?)
      decreases u
    {
      PtrOf(u, ndx.cap, 0);
      HoldsKid(ndx.pages, u, ndx.pageCnt, 0);
      FirstChild(t, u, ndx.cap);
      u := u.kids[0];
      pn := p.slot[0].pno;
      ImageFits(u, ndx.cap);
      assert u.pno in Pnos(u);
      p := ndx.GetPage(pn);
      assert p.slot[..][0].pno == ImageOf(u).ptrs[0];
      PtrOf(u, ndx.cap, 0);
    }
    ndx.pageNo, ndx.entryNo := pn, 0;
    e := p.slot[0];
    assert Rec(p.slot[..][0]) == ImageOf(u).ents[0];
    SubAtAt(t, u, 0, pn, 0, 0);
  }

  lemma FirstChild(t: Tree, u: Tree, cap: nat)
    requires SubAt(t, u, 0) && Shaped(u, cap) && u.Node?
    ensures SubAt(t, u.kids[0], 0)
    ensures Flat(u) != [] && Flat(u.kids[0]) != [] && Flat(u.kids[0])[0] == Flat(u)[0]
  {
    LastIsFlatLast(u.kids[0], cap);
    SubAtFirst(t, u);
  }

  lemma {:induction false} SubAtFirst(t: Tree, u: Tree)
    requires SubAt(t, u, 0) && u.Node? && u.kids != []
    ensures SubAt(t, u.kids[0], 0)
    decreases t
  {
    if t == u {
      assert SubAt(u.kids[0], u.kids[0], 0);
      assert SubAtKid(t.kids, 0, u.kids[0], 0);
    } else {
      var r :| 0 <= r < |t.kids| && SubAtKid(t.kids, r, u, 0);
      SubAtFirst(t.kids[r], u);
      assert SubAtKid(t.kids, r, u.kids[0], 0);
    }
  }

  // ---------------------------------------------------------------- the engine's cursor

  /** The cursor is on entry number i of the index. */
  ghost predicate OnEntry(ndx: Index, i: nat)
    reads ndx
  {
    ndx.rootNo != 0 && At(ndx.tree, ndx.pageNo, ndx.entryNo, i)
  }

  /** The page of a cursor position, and what its last entry is. */
  lemma {:induction false} LeafOf(pages: map<nat, Image>, t: Tree, cap: nat, pno: nat, e: nat, i: nat)
    requires RootShaped(t, cap) && Rep(pages, t) && At(t, pno, e, i)
    ensures i < |Flat(t)| && pno in pages && pno in Pnos(t) && 0 < pno
    ensures |pages[pno].ptrs| == |pages[pno].ents| + 1 <= cap + 1
    ensures e < |pages[pno].ents| && pages[pno].ents[e] == Flat(t)[i]
    ensures e + 1 < |pages[pno].ents| ==>
              i + 1 < |Flat(t)| && At(t, pno, e + 1, i + 1) && pages[pno].ents[e + 1] == Flat(t)[i + 1]
    ensures EndsLeaf(t, i) <==> e + 1 == |pages[pno].ents|
    decreases t, 1
  {
    if t.Node? { LeafOfAll(pages, t.kids, cap, pno, e, i); }
  }

  lemma {:induction false} LeafOfAll(pages: map<nat, Image>, ks: seq<Tree>, cap: nat, pno: nat, e: nat, i: nat)
    requires forall k :: 0 <= k < |ks| ==> Shaped(ks[k], cap) && Rep(pages, ks[k])
    requires AtAll(ks, pno, e, i)
    ensures i < |FlatAll(ks)| && pno in pages && pno in PnosAll(ks) && 0 < pno
    ensures |pages[pno].ptrs| == |pages[pno].ents| + 1 <= cap + 1
    ensures e < |pages[pno].ents| && pages[pno].ents[e] == FlatAll(ks)[i]
    ensures e + 1 < |pages[pno].ents| ==>
              i + 1 < |FlatAll(ks)| && AtAll(ks, pno, e + 1, i + 1) && pages[pno].ents[e + 1] == FlatAll(ks)[i + 1]
    ensures EndsLeafAll(ks, i) <==> e + 1 == |pages[pno].ents|
    decreases ks, 0
  {
    if i < |Flat(ks[0])| {
      LeafOf(pages, ks[0], cap, pno, e, i);
      if e + 1 < |pages[pno].ents| { AtIn(ks[0], pno, e + 1, i + 1); }
    } else {
      LeafOfAll(pages, ks[1..], cap, pno, e, i - |Flat(ks[0])|);
    }
  }

  /** Go to the first entry. Without a root page the header page stands in for it: it starts
      with the root page number, which then is zero and reads as an empty page. */
  method NdxTop(ndx: Index) returns (rno: nat)
    requires ndx.Readable()
    modifies ndx`pageNo, ndx`entryNo
    ensures rno == 0 <==> ndx.Entries() == []
    ensures rno != 0 ==> rno == ndx.Entries()[0].recno && OnEntry(ndx, 0)
  {
    if ndx.rootNo == 0 {
      return 0;
    }
    ghost var t := ndx.tree;
    ImageFits(t, ndx.cap);
    assert t.pno in Pnos(t);
    var p := ndx.GetPage(ndx.rootNo);
    if p.cnt == 0 {
      return 0;
    }
    LastIsFlatLast(t, ndx.cap);
    RecnosPositive(t, ndx.cap);
    var e := GoLeftmost(ndx, ndx.rootNo, t);
    rno := e.recno;
  }

  /** The first entry of the page after the one whose last entry is target; false at the end. */
  method LFind(ndx: Index, target: Slot, ghost i: nat) returns (found: bool, e: Slot)
    requires ndx.Readable() && ndx.rootNo != 0 && Shaped(ndx.tree, ndx.cap)
    requires i < |ndx.Entries()| && ndx.Entries()[i] == Rec(target) && EndsLeaf(ndx.tree, i)
    modifies ndx`pageNo, ndx`entryNo
    ensures found <==> i + 1 < |ndx.Entries()|
    ensures found ==> Rec(e) == ndx.Entries()[i + 1] && OnEntry(ndx, i + 1)
    ensures !found ==> ndx.pageNo == old(ndx.pageNo) && ndx.entryNo == old(ndx.entryNo)
  {
    e := target;
    var pn;
    ghost var u;
    pn, u := BtXrch(ndx, ndx.rootNo, target, ndx.tree, i);
    if pn == 0 {
      return false, e;
    }
    e := GoLeftmost(ndx, pn, u);
    found := true;
    SubAtAt(ndx.tree, u, i + 1, ndx.pageNo, ndx.entryNo, 0);
  }

  /** Step to the next entry: its record number, or 0 after the last one. A cursor that was
      reset is first put back on the entry of the current record, given by key and number. */
  method NextNdx(ndx: Index, current: Slot, ghost i: nat) returns (rno: nat)
    requires ndx.Readable() && i < |ndx.Entries()|
    requires if ndx.pageNo == 0 then current.recno != 0 && ndx.Entries()[i] == Rec(current) else OnEntry(ndx, i)
    modifies ndx`pageNo, ndx`entryNo
    ensures rno == 0 <==> i + 1 == |ndx.Entries()|
    ensures rno != 0 ==> rno == ndx.Entries()[i + 1].recno && OnEntry(ndx, i + 1) && ndx.pageNo != 0
  {
    ghost var t, s := ndx.tree, ndx.Entries();
    RecnosPositive(t, ndx.cap);
    if ndx.pageNo == 0 {
      PutBack(ndx, current, i);
    }
    LeafOf(ndx.pages, t, ndx.cap, ndx.pageNo, ndx.entryNo, i);
    var p := ndx.GetPage(ndx.pageNo);
    if ndx.entryNo == p.cnt - 1 {
      assert Rec(p.slot[..][p.cnt - 1]) == s[i];
      rno := NextPage(ndx, p.slot[p.cnt - 1], i);
    } else {
      ndx.entryNo := ndx.entryNo + 1;
      assert Rec(p.slot[..][ndx.entryNo]) == s[i + 1];
      rno := p.slot[ndx.entryNo].recno;
    }
  }

  /** Put a cursor that was reset back on the entry of the current record. */
  method PutBack(ndx: Index, current: Slot, ghost i: nat)
    requires ndx.Readable() && ndx.rootNo != 0 && Shaped(ndx.tree, ndx.cap)
    requires i < |ndx.Entries()| && current.recno != 0 && ndx.Entries()[i] == Rec(current)
    modifies ndx`pageNo, ndx`entryNo
    ensures OnEntry(ndx, i)
  {
    PresentIffMember(ndx.Entries(), Rec(current));
    PosUniqueAt(ndx.Entries(), i);
    var _ := BtSrch(ndx, ndx.rootNo, current, ndx.tree);
  }

  /** From the last entry of a page to the first of the next one. */
  method NextPage(ndx: Index, target: Slot, ghost i: nat) returns (rno: nat)
    requires ndx.Readable() && ndx.rootNo != 0 && Shaped(ndx.tree, ndx.cap)
    requires i < |ndx.Entries()| && ndx.Entries()[i] == Rec(target) && EndsLeaf(ndx.tree, i)
    requires forall k :: 0 <= k < |ndx.Entries()| ==> 0 < ndx.Entries()[k].recno
    modifies ndx`pageNo, ndx`entryNo
    ensures rno == 0 <==> i + 1 == |ndx.Entries()|
    ensures rno != 0 ==> rno == ndx.Entries()[i + 1].recno && OnEntry(ndx, i + 1) && ndx.pageNo != 0
  {
    var found, e := LFind(ndx, target, i);
    if !found {
      return 0;
    }
    // an entry that is not past the last one would end the walk; none is
    assert Less(ndx.Entries()[i], ndx.Entries()[i + 1]);
    LeafOf(ndx.pages, ndx.tree, ndx.cap, ndx.pageNo, ndx.entryNo, i + 1);
    rno := 0;
    if e.key > target.key || (e.key == target.key && e.recno > target.recno) {
      rno := e.recno;
    }
  }

  lemma PosUniqueAt(s: seq<Ent>, i: nat)
    requires Sorted(s) && i < |s|
    ensures Pos(s, s[i]) == i
  {
    PosUnique(s, s[i], i);
  }

  function Recnos(s: seq<Ent>): seq<nat> {
    seq(|s|, i requires 0 <= i < |s| => s[i].recno)
  }

  /** Top, then next until 0: every entry exactly once, in order. */
  method Walk(ndx: Index) returns (recs: seq<nat>)
    requires ndx.Readable()
    modifies ndx`pageNo, ndx`entryNo
    ensures recs == Recnos(ndx.Entries())
    ensures |recs| == |ndx.Entries()| && forall i :: 0 <= i < |recs| ==> recs[i] == ndx.Entries()[i].recno
  {
    recs := [];
    var r := NdxTop(ndx);
    ghost var s := ndx.Entries();
    if r != 0 { LeafOf(ndx.pages, ndx.tree, ndx.cap, ndx.pageNo, ndx.entryNo, 0); }
    while r != 0
      invariant ndx.Entries() == s && |recs| <= |s| && recs == Recnos(s[..|recs|])
      invariant r != 0 ==> |recs| < |s| && r == s[|recs|].recno && OnEntry(ndx, |recs|) && ndx.pageNo != 0
      invariant r == 0 ==> |recs| == |s|
      decreases |s| - |recs|
    {
      recs := recs + [r];
      r := NextNdx(ndx, Slot(0, r, 0), |recs| - 1);
    }
    assert s[..|recs|] == s;
  }
}
