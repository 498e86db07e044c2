/** Loading an index from a sorted stream of entries, bottom up and left to right: every page but
    those at the right edge is filled to the brim. */
module BulkLoad {
  import opened Entries
  import opened BTree
  import opened Pages
  import opened IndexFile
  import opened Table

  /** A loaded tree of height h: all leaves at one depth, pages within capacity, separators equal
      to the last key on their left, and every child but the last completely full. A page at the
      right edge may have a single child. */
  ghost predicate Loaded(t: Tree, cap: nat, h: nat)
    decreases t
  {
    match t
    case Leaf(pno, es) =>
      h == 0 && 0 < pno && 1 <= |es| <= cap && forall i :: 0 <= i < |es| ==> 0 < es[i].recno
    case Node(pno, kids, seps) =>
      && 0 < h && 0 < pno && |seps| <= cap && |kids| == |seps| + 1
      && (forall i :: 0 <= i < |kids| ==> Loaded(kids[i], cap, h - 1))
      && (forall i :: 0 <= i < |seps| ==> seps[i] == Ent(Last(kids[i]).key, 0))
      && (forall i :: 0 <= i < |seps| ==> |Flat(kids[i])| == Full(cap, h - 1))
  }

  /** How many entries a completely filled tree of height h takes. */
  function Full(cap: nat, h: nat): nat {
    if h == 0 then cap else (cap + 1) * Full(cap, h - 1)
  }

  /** Levels below a page when tpage pages of its level would have to hold n entries. */
  function Height(tpage: nat, cap: nat, n: nat): nat
    requires 1 <= tpage && 1 <= cap
    decreases n - tpage
  {
    if tpage * cap >= n then 0 else Below(tpage, cap, n); 1 + Height(tpage * (cap + 1), cap, n)
  }

  lemma Below(tpage: nat, cap: nat, n: nat)
    requires 1 <= tpage && 1 <= cap && tpage * cap < n
    ensures tpage < tpage * (cap + 1) && tpage < n
  {
    assert tpage * (cap + 1) == tpage * cap + tpage;
    assert tpage <= tpage * cap;
  }

  lemma MulAssoc(a: nat, b: nat, c: nat)
    ensures a * b * c == a * (b * c)
  {
  }

  lemma MulSplit(a: nat, b: nat, f: nat)
    ensures (a + b) * f == a * f + b * f
  {
  }

  /** The height is chosen so that the whole stream fits. */
  lemma {:induction false} Fits(tpage: nat, cap: nat, n: nat)
    requires 1 <= tpage && 1 <= cap
    ensures n <= tpage * Full(cap, Height(tpage, cap, n))
    decreases n - tpage
  {
    if tpage * cap < n {
      Below(tpage, cap, n);
      Fits(tpage * (cap + 1), cap, n);
      var h := Height(tpage * (cap + 1), cap, n);
      MulAssoc(tpage, cap + 1, Full(cap, h));
      assert Full(cap, 1 + h) == (cap + 1) * Full(cap, h);
    }
  }

  /** Whatever the right edge, a loaded tree is one to search. */
  lemma {:induction false} LoadedShaped(t: Tree, cap: nat, h: nat)
    requires Loaded(t, cap, h)
    ensures Shaped(t, cap)
    decreases t
  {
    if t.Node? {
      forall i | 0 <= i < |t.kids| ensures Shaped(t.kids[i], cap) { LoadedShaped(t.kids[i], cap, h - 1); }
    }
  }

  /** The height is no more than the stream needs. */
  lemma {:induction false} NoTaller(tpage: nat, cap: nat, n: nat)
    requires 1 <= tpage && 1 <= cap && Height(tpage, cap, n) > 0
    ensures tpage * Full(cap, Height(tpage, cap, n) - 1) < n
    decreases n - tpage
  {
    Below(tpage, cap, n);
    var h := Height(tpage * (cap + 1), cap, n);
    if h > 0 {
      NoTaller(tpage * (cap + 1), cap, n);
      MulAssoc(tpage, cap + 1, Full(cap, h - 1));
    }
  }

  /** So the root has more than one child. */
  lemma RootNotLone(t: Tree, cap: nat, n: nat)
    requires 1 <= cap && Loaded(t, cap, Height(1, cap, n)) && n == |Flat(t)| && t.Node?
    ensures t.seps != []
  {
    LoadedCount(t, cap, Height(1, cap, n));
    NoTaller(1, cap, n);
  }

  /** With the right edge counted out, a loaded tree is a tree as insertion and deletion know it. */
  ghost predicate NoLonePage(t: Tree) {
    t.Node? ==> 1 <= |t.seps| && forall i :: 0 <= i < |t.kids| ==> NoLonePage(t.kids[i])
  }

  lemma {:induction false} LoadedIsWF(t: Tree, cap: nat, h: nat)
    requires Loaded(t, cap, h)
    ensures WF(t, cap) <==> NoLonePage(t)
    decreases t
  {
    if t.Node? {
      forall i | 0 <= i < |t.kids| ensures WF(t.kids[i], cap) <==> NoLonePage(t.kids[i]) {
        LoadedIsWF(t.kids[i], cap, h - 1);
      }
    }
  }

  /** Entries in the last child when n entries go to children of f entries each. */
  function LastShare(n: nat, f: nat): nat
    requires 1 <= f
  {
    if n <= f then n else LastShare(n - f, f)
  }

  /** Loading n entries to height h leaves some page with a single child: the page itself gets no
      more than one child can take, or the last child has the problem. */
  predicate LeavesLone(n: nat, cap: nat, h: nat)
    requires 1 <= cap
    decreases h
  {
    h > 0 && (n <= Full(cap, h - 1)
        || (FullPositive(cap, h - 1); LeavesLone(LastShare(n, Full(cap, h - 1)), cap, h - 1)))
  }

  lemma {:induction false} FullPositive(cap: nat, h: nat)
    requires 1 <= cap
    ensures 1 <= Full(cap, h)
  {
    if h > 0 {
      FullPositive(cap, h - 1);
      assert 1 <= (cap + 1) * Full(cap, h - 1);
    }
  }

  lemma {:induction false} LastShareOf(k: nat, m: nat, f: nat)
    requires 1 <= m <= f
    ensures LastShare(k * f + m, f) == m
  {
    if k > 0 {
      assert k * f + m == f + ((k - 1) * f + m);
      assert 0 <= (k - 1) * f;
      LastShareOf(k - 1, m, f);
    }
  }

  lemma {:induction false} CountKids(kids: seq<Tree>, f: nat)
    requires forall i :: 0 <= i < |kids| ==> |Flat(kids[i])| == f
    ensures |FlatAll(kids)| == |kids| * f
  {
    if kids != [] {
      CountKids(kids[1..], f);
      assert |kids| * f == f + (|kids| - 1) * f;
    }
  }

  /** A loaded tree holds at most Full entries; full kids and the share of the last make it up. */
  lemma {:induction false} LoadedCount(t: Tree, cap: nat, h: nat)
    requires Loaded(t, cap, h) && 1 <= cap
    ensures 1 <= |Flat(t)| <= Full(cap, h)
    ensures t.Node? ==> var m := |Flat(t.kids[|t.seps|])|;
              1 <= m <= Full(cap, h - 1) && |Flat(t)| == |t.seps| * Full(cap, h - 1) + m
    decreases t
  {
    LoadedLast(t, cap, h);
    if t.Node? {
      var k := |t.seps|;
      LoadedCount(t.kids[k], cap, h - 1);
      FlatAt(t.kids, k);
      assert t.kids[k + 1..] == [];
      CountKids(t.kids[..k], Full(cap, h - 1));
      FullMore(cap, h, k);
    }
  }

  /** A page with a single child is left behind exactly when the number of entries says so. */
  lemma {:induction false} LoneExactly(t: Tree, cap: nat, h: nat)
    requires Loaded(t, cap, h) && 1 <= cap
    ensures NoLonePage(t) <==> !LeavesLone(|Flat(t)|, cap, h)
    decreases t
  {
    if t.Node? {
      var k, f := |t.seps|, Full(cap, h - 1);
      LoadedCount(t, cap, h);
      var m := |Flat(t.kids[k])|;
      FullNotLone(cap, h - 1);
      forall i | 0 <= i <= k
        ensures NoLonePage(t.kids[i]) <==> !LeavesLone(|Flat(t.kids[i])|, cap, h - 1)
      {
        LoneExactly(t.kids[i], cap, h - 1);
      }
      LastShareOf(k, m, f);
      if k > 0 { assert k * f >= f; }
    }
  }

  lemma {:induction false} FullNotLone(cap: nat, h: nat)
    requires 1 <= cap
    ensures !LeavesLone(Full(cap, h), cap, h)
  {
    if h > 0 {
      FullPositive(cap, h - 1);
      FullNotLone(cap, h - 1);
      var f := Full(cap, h - 1);
      assert Full(cap, h) == cap * f + f;
      assert cap * f >= f;
      LastShareOf(cap, f, f);
    }
  }

  /** What a call of build_bt leaves: the tree on page pno, loaded with the next stretch of the
      stream, which ends the stream unless the tree is completely full. */
  ghost predicate Stretch(pages: map<nat, Image>, pageCnt: nat, cap: nat, t: Tree, h: nat, stream: seq<Ent>, from: nat,
                          to: nat, lastpg: bool, pno: nat)
  {
    && t.pno == pno && Loaded(t, cap, h) && Holds(pages, t, pageCnt) && 1 <= cap
    && from < to <= |stream| && Flat(t) == stream[from..to]
    && (lastpg <==> |stream| - from <= Full(cap, h))
    && to == (if lastpg then |stream| else from + Full(cap, h))
    && (forall p :: p in Pnos(t) ==> pno <= p)
  }

  lemma {:induction false} LoadedLast(t: Tree, cap: nat, h: nat)
    requires Loaded(t, cap, h)
    ensures Flat(t) != [] && Last(t) == Flat(t)[|Flat(t)| - 1]
    decreases t
  {
    if t.Node? {
      var n := |t.kids| - 1;
      LoadedLast(t.kids[n], cap, h - 1);
      FlatAt(t.kids, n);
      assert t.kids[n + 1..] == [];
    }
  }

  /** Fill one leaf page from the stream. */
  method LoadLeaf(ndx: Index, stream: seq<Ent>, from: nat, pno: nat)
    returns (lastpg: bool, to: nat, key: int, ghost t: Tree)
    requires from < |stream| && 1 <= ndx.cap && 0 < pno < ndx.pageCnt && pno !in ndx.pages
    requires AllUnder(ndx.pages.Keys, ndx.pageCnt)
    requires forall i :: 0 <= i < |stream| ==> 0 < stream[i].recno
    modifies ndx`pages
    ensures Stretch(ndx.pages, ndx.pageCnt, ndx.cap, t, 0, stream, from, to, lastpg, pno) && key == Last(t).key
      && Pnos(t) == {pno}
    ensures ndx.pages == old(ndx.pages)[pno := ImageOf(t)]
  {
    var p := ndx.GetPage(pno);
    to := from;
    var nrec := |stream| - from;
    lastpg := nrec <= ndx.cap;
    var recpp := if lastpg then nrec else ndx.cap;
    for i := 0 to recpp
      invariant ndx.pages == old(ndx.pages)
      invariant p.cnt == i && to == from + i && p.slot.Length == ndx.cap + 1
      invariant forall j :: 0 <= j < i ==> p.slot[j] == Slot(0, stream[from + j].recno, stream[from + j].key)
    {
      p.PutPageno(i, 0);
      p.slot[i] := p.slot[i].(key := stream[to].key);
      p.slot[i] := p.slot[i].(recno := stream[to].recno);
      to := to + 1;
      p.cnt := p.cnt + 1;
    }
    p.PutPageno(p.cnt, 0);
    key := p.slot[p.cnt - 1].key;
    t := Leaf(pno, stream[from..to]);
    assert p.Holds(ImageOf(t));
    ndx.WritePage(pno, p, ImageOf(t));
  }

  /** The children collected so far on a page under construction, all completely full. */
  ghost predicate Collected(pages: map<nat, Image>, pageCnt: nat, cap: nat, kids: seq<Tree>, seps: seq<Ent>, h: nat,
                            stream: seq<Ent>, from: nat, to: nat, pno: nat)
  {
    && |kids| == |seps| && 1 <= h && 1 <= cap && |seps| <= cap
    && from <= to < |stream| && to == from + |kids| * Full(cap, h - 1) && FlatAll(kids) == stream[from..to]
    && (forall i :: 0 <= i < |kids| ==>
         && Loaded(kids[i], cap, h - 1) && Rep(pages, kids[i]) && seps[i] == Ent(Last(kids[i]).key, 0)
         && |Flat(kids[i])| == Full(cap, h - 1))
    && ApartAll(kids) && AllUnder(PnosAll(kids), pageCnt) && (forall p :: p in PnosAll(kids) ==> pno < p)
  }

  /** Pointers of such a page: one to each child, none yet behind the last separator. */
  ghost function Pending(kids: seq<Tree>, seps: seq<Ent>): Image
    requires |kids| == |seps|
  {
    Image(seps, seq(|kids|, i requires 0 <= i < |kids| => kids[i].pno) + [0])
  }

  lemma FullMore(cap: nat, h: nat, k: nat)
    requires 1 <= h && k <= cap
    ensures (k + 1) * Full(cap, h - 1) == k * Full(cap, h - 1) + Full(cap, h - 1)
    ensures (k + 1) * Full(cap, h - 1) <= Full(cap, h)
    ensures k == cap ==> (k + 1) * Full(cap, h - 1) == Full(cap, h)
  {
    var f := Full(cap, h - 1);
    MulSplit(k, 1, f);
    MulSplit(k + 1, cap - k, f);
  }

  /** One more full child: the page gets its pointer and its separator. */
  lemma CollectMore(pages: map<nat, Image>, pageCnt: nat, cap: nat, kids: seq<Tree>, seps: seq<Ent>, h: nat,
                    stream: seq<Ent>, from: nat, mid: nat, to: nat, pno: nat, u: Tree, lo: nat)
    requires Collected(pages, pageCnt, cap, kids, seps, h, stream, from, mid, pno) && |seps| < cap && pno < lo
    requires Stretch(pages, pageCnt, cap, u, h - 1, stream, mid, to, false, lo) && AllUnder(PnosAll(kids), lo)
    ensures Collected(pages, pageCnt, cap, kids + [u], seps + [Ent(Last(u).key, 0)], h, stream, from, to, pno)
  {
    FullMore(cap, h, |kids|);
    JoinFlat(kids, u, stream, from, mid, to);
    JoinApart(kids, u, lo, pageCnt, pno);
    assert |Flat(u)| == Full(cap, h - 1);
  }

  lemma JoinApart(kids: seq<Tree>, u: Tree, lo: nat, pageCnt: nat, pno: nat)
    requires ApartAll(kids) && AllUnder(PnosAll(kids), lo) && Apart(u) && AllUnder(Pnos(u), pageCnt)
      && AllUnder(PnosAll(kids), pageCnt)
    requires pno < lo && (forall p :: p in PnosAll(kids) ==> pno < p) && (forall p :: p in Pnos(u) ==> lo <= p)
    ensures ApartAll(kids + [u]) && AllUnder(PnosAll(kids + [u]), pageCnt)
      && (forall p :: p in PnosAll(kids + [u]) ==> pno < p)
  {
    PnosConcat(kids, [u]);
    PnosOne(u);
  }

  lemma JoinFlat(kids: seq<Tree>, u: Tree, stream: seq<Ent>, from: nat, mid: nat, to: nat)
    requires from <= mid <= to <= |stream| && FlatAll(kids) == stream[from..mid] && Flat(u) == stream[mid..to]
    ensures FlatAll(kids + [u]) == stream[from..to]
  {
    FlatAllConcat(kids, [u]);
    FlatSingle(u);
    assert stream[from..mid] + stream[mid..to] == stream[from..to];
  }

  lemma PnosOne(u: Tree)
    ensures PnosAll([u]) == Pnos(u) && (ApartAll([u]) <==> Apart(u))
  {
    assert [u][1..] == [];
  }

  /** The children stay where they are while the next one is built. */
  lemma CollectedFrame(pages: map<nat, Image>, pages': map<nat, Image>, lo: nat, pageCnt: nat, cap: nat,
                       kids: seq<Tree>, seps: seq<Ent>,
                       h: nat, stream: seq<Ent>, from: nat, to: nat, pno: nat, touched: set<nat>)
    requires Collected(pages, lo, cap, kids, seps, h, stream, from, to, pno)
    requires Frame(pages, pages', touched) && PnosAll(kids) !! touched && lo <= pageCnt
    ensures Collected(pages', pageCnt, cap, kids, seps, h, stream, from, to, pno)
  {
    forall i | 0 <= i < |kids| ensures Rep(pages', kids[i]) {
      PnosKid(kids, i);
      RepFrame(pages, pages', kids[i], touched);
    }
  }

  /** The last child closes the page: the tree on it is complete. */
  lemma Close(pages: map<nat, Image>, pages': map<nat, Image>, pageCnt: nat, cap: nat, kids: seq<Tree>, seps: seq<Ent>,
              h: nat, stream: seq<Ent>,
              from: nat, mid: nat, to: nat, pno: nat, u: Tree, lo: nat, lastpg: bool)
    requires 0 < pno < lo && |kids| == |seps| && 1 <= h && 1 <= cap && |seps| <= cap
    requires from <= mid < |stream| && mid == from + |kids| * Full(cap, h - 1) && FlatAll(kids) == stream[from..mid]
    requires forall i :: 0 <= i < |kids| ==>
               && Loaded(kids[i], cap, h - 1) && Rep(pages, kids[i]) && seps[i] == Ent(Last(kids[i]).key, 0)
               && |Flat(kids[i])| == Full(cap, h - 1)
    requires ApartAll(kids) && AllUnder(PnosAll(kids), lo) && (forall p :: p in PnosAll(kids) ==> pno < p)
    requires u.pno == lo && Loaded(u, cap, h - 1) && Rep(pages, u) && Apart(u) && AllUnder(Pnos(u), pageCnt)
    requires mid < to <= |stream| && Flat(u) == stream[mid..to] && (forall p :: p in Pnos(u) ==> lo <= p)
    requires (lastpg <==> |stream| - mid <= Full(cap, h - 1)) && (lastpg || |seps| == cap)
    requires to == (if lastpg then |stream| else mid + Full(cap, h - 1))
    requires var t := Node(pno, kids + [u], seps);
             pages' == pages[pno := ImageOf(t)] && pno < pageCnt && lo <= pageCnt
    ensures Stretch(pages', pageCnt, cap, Node(pno, kids + [u], seps), h, stream, from, to, lastpg, pno)
  {
    var t := Node(pno, kids + [u], seps);
    JoinFlat(kids, u, stream, from, mid, to);
    PnosConcat(kids, [u]);
    PnosOne(u);
    FullMore(cap, h, |kids|);
    CloseLoaded(kids, seps, h, cap, pno, u);
    RepPage(pages, pages', t);
  }

  lemma CloseLoaded(kids: seq<Tree>, seps: seq<Ent>, h: nat, cap: nat, pno: nat, u: Tree)
    requires 0 < pno && |kids| == |seps| <= cap && 1 <= h && Loaded(u, cap, h - 1)
    requires forall i :: 0 <= i < |kids| ==>
               && Loaded(kids[i], cap, h - 1) && seps[i] == Ent(Last(kids[i]).key, 0)
               && |Flat(kids[i])| == Full(cap, h - 1)
    ensures Loaded(Node(pno, kids + [u], seps), cap, h)
  {
    var ks := kids + [u];
    assert forall i :: 0 <= i < |kids| ==> ks[i] == kids[i];
  }

  /** Pages that are new in pages' have numbers from lo on. */
  ghost predicate Added(pages: map<nat, Image>, pages': map<nat, Image>, lo: nat) {
    forall p :: p in pages' && p !in pages ==> lo <= p
  }

  /** Build the tree on page pno, the next one of the file, from the stream at from on. With it
      come back the page to point at and the last key below it. */
  method BuildBt(ndx: Index, stream: seq<Ent>, from: nat, tpage: nat, pno: nat)
    returns (lastpg: bool, to: nat, kp: nat, key: int, ghost t: Tree)
    requires from < |stream| && 1 <= ndx.cap && 1 <= tpage && 0 < pno == ndx.pageCnt
      && AllUnder(ndx.pages.Keys, ndx.pageCnt)
    requires forall i :: 0 <= i < |stream| ==> 0 < stream[i].recno
    modifies ndx`pages, ndx`pageCnt
    ensures AllUnder(ndx.pages.Keys, ndx.pageCnt) && Frame(old(ndx.pages), ndx.pages, {}) && pno < ndx.pageCnt
    ensures Added(old(ndx.pages), ndx.pages, pno)
    ensures Stretch(ndx.pages, ndx.pageCnt, ndx.cap, t, Height(tpage, ndx.cap, |stream|), stream, from, to, lastpg, pno)
    ensures kp == pno && key == Last(t).key
    decreases Height(tpage, ndx.cap, |stream|), 2
  {
    ndx.pageCnt := ndx.pageCnt + 1;
    kp := pno;
    if tpage * ndx.cap >= |stream| {
      lastpg, to, key, t := LoadLeaf(ndx, stream, from, pno);
    } else {
      Below(tpage, ndx.cap, |stream|);
      lastpg, to, key, t := LoadNode(ndx, stream, from, tpage * (ndx.cap + 1), pno, Height(tpage, ndx.cap, |stream|));
    }
  }

  /** The loop of build_bt over the children of a non-leaf page. */
  method LoadNode(ndx: Index, stream: seq<Ent>, from: nat, tpg: nat, pno: nat, ghost h: nat)
    returns (lastpg: bool, to: nat, key: int, ghost t: Tree)
    requires from < |stream| && 1 <= ndx.cap && 1 <= tpg && 0 < pno && pno + 1 == ndx.pageCnt
    requires AllUnder(ndx.pages.Keys, pno)
    requires h == 1 + Height(tpg, ndx.cap, |stream|)
    requires forall i :: 0 <= i < |stream| ==> 0 < stream[i].recno
    modifies ndx`pages, ndx`pageCnt
    ensures AllUnder(ndx.pages.Keys, ndx.pageCnt) && Frame(old(ndx.pages), ndx.pages, {}) && pno < ndx.pageCnt
    ensures Added(old(ndx.pages), ndx.pages, pno)
    ensures Stretch(ndx.pages, ndx.pageCnt, ndx.cap, t, h, stream, from, to, lastpg, pno) && key == Last(t).key
    decreases h, 1
  {
    ghost var kids: seq<Tree>, seps: seq<Ent> := [], [];
    to := from;
    while true
      invariant AllUnder(ndx.pages.Keys, ndx.pageCnt) && Frame(old(ndx.pages), ndx.pages, {pno}) && pno < ndx.pageCnt
      invariant Collected(ndx.pages, ndx.pageCnt, ndx.cap, kids, seps, h, stream, from, to, pno)
      invariant Begun(ndx.pages, pno, kids, seps) && Added(old(ndx.pages), ndx.pages, pno)
      decreases ndx.cap - |kids|
    {
      var done;
      ghost var u;
      done, lastpg, to, key, t, u := LoadChild(ndx, stream, from, to, tpg, pno, h, kids, seps);
      if done {
        return;
      }
      kids, seps := kids + [u], seps + [Ent(key, 0)];
    }
  }

  /** One round of that loop: build the next child, then close the page with it or go on. */
  method LoadChild(ndx: Index, stream: seq<Ent>, ghost from: nat, mid: nat, tpg: nat, pno: nat, ghost h: nat,
                   ghost kids: seq<Tree>, ghost seps: seq<Ent>)
    returns (done: bool, lastpg: bool, to: nat, key: int, ghost t: Tree, ghost u: Tree)
    requires 1 <= ndx.cap && 1 <= tpg && 0 < pno < ndx.pageCnt && AllUnder(ndx.pages.Keys, ndx.pageCnt)
    requires h == 1 + Height(tpg, ndx.cap, |stream|)
    requires forall i :: 0 <= i < |stream| ==> 0 < stream[i].recno
    requires Collected(ndx.pages, ndx.pageCnt, ndx.cap, kids, seps, h, stream, from, mid, pno)
    requires Begun(ndx.pages, pno, kids, seps)
    modifies ndx`pages, ndx`pageCnt
    ensures AllUnder(ndx.pages.Keys, ndx.pageCnt) && Frame(old(ndx.pages), ndx.pages, {pno}) && pno < ndx.pageCnt
    ensures Added(old(ndx.pages), ndx.pages, pno)
    ensures done ==> Stretch(ndx.pages, ndx.pageCnt, ndx.cap, t, h, stream, from, to, lastpg, pno) && key == Last(t).key
    ensures !done ==>
      && |kids| < ndx.cap
      && Collected(ndx.pages, ndx.pageCnt, ndx.cap, kids + [u], seps + [Ent(key, 0)], h, stream, from, to, pno)
      && Begun(ndx.pages, pno, kids + [u], seps + [Ent(key, 0)])
    decreases h, 0
  {
    ghost var lo, before := ndx.pageCnt, ndx.pages;
    var kp;
    lastpg, to, kp, key, u := BuildBt(ndx, stream, mid, tpg, ndx.pageCnt);
    CollectedFrame(before, ndx.pages, lo, ndx.pageCnt, ndx.cap, kids, seps, h, stream, from, mid, pno, {});
    assert Begun(ndx.pages, pno, kids, seps);
    var p := ndx.GetPage(pno);
    done := lastpg || p.cnt == ndx.cap;
    if done {
      t := CloseNode(ndx, p, pno, kp, kids, seps, h, stream, from, mid, to, u, lo, lastpg);
    } else {
      t := u;
      AddChild(ndx, p, pno, kp, key, kids, seps, h, stream, from, mid, to, u, lo);
    }
  }

  /** The page under construction as the file shows it: not written at all before its first child. */
  ghost predicate Begun(pages: map<nat, Image>, pno: nat, kids: seq<Tree>, seps: seq<Ent>)
    requires |kids| == |seps|
  {
    if kids == [] then pno !in pages else pno in pages && pages[pno] == Pending(kids, seps)
  }

  method AddChild(ndx: Index, p: PageBuf, pno: nat, kp: nat, key: int, ghost kids: seq<Tree>, ghost seps: seq<Ent>,
                  ghost h: nat,
                  ghost stream: seq<Ent>, ghost from: nat, ghost mid: nat, ghost to: nat, ghost u: Tree, ghost lo: nat)
    requires Collected(ndx.pages, ndx.pageCnt, ndx.cap, kids, seps, h, stream, from, mid, pno) && |seps| < ndx.cap
    requires Stretch(ndx.pages, ndx.pageCnt, ndx.cap, u, h - 1, stream, mid, to, false, lo) && kp == lo
      && key == Last(u).key
    requires AllUnder(PnosAll(kids), lo) && pno < lo && AllUnder(ndx.pages.Keys, ndx.pageCnt) && pno < ndx.pageCnt
    requires p.Holds(Pending(kids, seps)) && p.slot.Length == ndx.cap + 1
    modifies ndx`pages, p, p.slot
    ensures AllUnder(ndx.pages.Keys, ndx.pageCnt)
    ensures ndx.pages == old(ndx.pages)[pno := Pending(kids + [u], seps + [Ent(key, 0)])]
    ensures Collected(ndx.pages, ndx.pageCnt, ndx.cap, kids + [u], seps + [Ent(key, 0)], h, stream, from, to, pno)
  {
    var c := p.cnt;
    p.slot[c] := Slot(kp, 0, key);
    p.cnt := c + 1;
    p.PutPageno(c + 1, 0);
    ghost var img := Pending(kids + [u], seps + [Ent(key, 0)]);
    PendingShown(old(p.slot[..]), p.slot[..], kids, seps, u, key);
    ndx.WritePage(pno, p, img);
    CollectMore(old(ndx.pages), ndx.pageCnt, ndx.cap, kids, seps, h, stream, from, mid, to, pno, u, lo);
    CollectedFrame(old(ndx.pages), ndx.pages, ndx.pageCnt, ndx.pageCnt, ndx.cap, kids + [u], seps + [Ent(key, 0)], h,
        stream, from, to, pno, {pno});
  }

  lemma PendingShown(s: seq<Slot>, s': seq<Slot>, kids: seq<Tree>, seps: seq<Ent>, u: Tree, key: int)
    requires |kids| == |seps| && |seps| + 1 < |s| == |s'|
    requires ShowsEnts(s, Pending(kids, seps).ents) && ShowsPtrs(s, Pending(kids, seps).ptrs)
    requires forall j {:trigger s'[j]} :: 0 <= j < |seps| ==> s'[j] == s[j]
    requires s'[|seps|] == Slot(u.pno, 0, key) && s'[|seps| + 1].pno == 0
    ensures var img := Pending(kids + [u], seps + [Ent(key, 0)]);
            ShowsEnts(s', img.ents) && ShowsPtrs(s', img.ptrs)
  {
    var img := Pending(kids + [u], seps + [Ent(key, 0)]);
    assert forall j :: 0 <= j < |seps| ==> img.ptrs[j] == Pending(kids, seps).ptrs[j];
  }

  method CloseNode(ndx: Index, p: PageBuf, pno: nat, kp: nat, ghost kids: seq<Tree>, ghost seps: seq<Ent>, ghost h: nat,
                   ghost stream: seq<Ent>, ghost from: nat, ghost mid: nat, ghost to: nat, ghost u: Tree,
                       ghost lo: nat, ghost lastpg: bool)
    returns (ghost t: Tree)
    requires Collected(ndx.pages, ndx.pageCnt, ndx.cap, kids, seps, h, stream, from, mid, pno)
      && (lastpg || |seps| == ndx.cap)
    requires Stretch(ndx.pages, ndx.pageCnt, ndx.cap, u, h - 1, stream, mid, to, lastpg, lo) && kp == lo
    requires AllUnder(PnosAll(kids), lo) && 0 < pno < lo && AllUnder(ndx.pages.Keys, ndx.pageCnt) && lo < ndx.pageCnt
    requires p.Holds(Pending(kids, seps)) && p.slot.Length == ndx.cap + 1
    modifies ndx`pages, p, p.slot
    ensures AllUnder(ndx.pages.Keys, ndx.pageCnt) && ndx.pages == old(ndx.pages)[pno := ImageOf(t)]
    ensures Stretch(ndx.pages, ndx.pageCnt, ndx.cap, t, h, stream, from, to, lastpg, pno) && Last(t) == Last(u)
  {
    p.PutPageno(p.cnt, kp);
    t := Node(pno, kids + [u], seps);
    assert ImageOf(t).ptrs == Pending(kids, seps).ptrs[|seps| := kp];
    ndx.WritePage(pno, p, ImageOf(t));
    Close(old(ndx.pages), ndx.pages, ndx.pageCnt, ndx.cap, kids, seps, h, stream, from, mid, to, pno, u, lo, lastpg);
  }

  /** Load an index from a sorted stream. The root covers the whole stream: all leaves are at the
      depth Height says, and the index holds exactly the stream. An empty stream is an error:
      there is no last key to pass up. The result can always be searched; it is an index for insertion
      and deletion to work on exactly when no page was left with a single child, which the length of
      the stream decides. */
  method QIndex(ndx: Index, stream: seq<Ent>) returns (ok: bool)
    requires 2 <= ndx.cap && Sorted(stream) && forall i :: 0 <= i < |stream| ==> 0 < stream[i].recno
    requires 0 < ndx.pageCnt && ndx.pages == map[]
    modifies ndx
    ensures ndx.unique == old(ndx.unique)
    ensures ok <==> stream != []
    ensures ok ==> Loaded(ndx.tree, ndx.cap, Height(1, ndx.cap, |stream|)) && ndx.tree.pno == ndx.rootNo
                   && Holds(ndx.pages, ndx.tree, ndx.pageCnt) && ndx.Entries() == stream
    ensures ok ==> ndx.Readable()
    ensures ok ==> (ndx.Valid() <==> !LeavesLone(|stream|, ndx.cap, Height(1, ndx.cap, |stream|)))
  {
    ok := stream != [];
    if ok {
      ndx.rootNo := ndx.pageCnt;
      var lastpg, to, kp, key;
      ghost var t;
      lastpg, to, kp, key, t := BuildBt(ndx, stream, 0, 1, ndx.rootNo);
      Fits(1, ndx.cap, |stream|);
      assert stream[0..|stream|] == stream;
      LoadedIsWF(t, ndx.cap, Height(1, ndx.cap, |stream|));
      LoneExactly(t, ndx.cap, Height(1, ndx.cap, |stream|));
      LoadedShaped(t, ndx.cap, Height(1, ndx.cap, |stream|));
      if t.Node? { RootNotLone(t, ndx.cap, |stream|); }
      ndx.tree := t;
    }
  }

  /** Loaded from the sorted keys of a table without deleted records, or built by inserting them
      one by one, an index has the same entries. */
  lemma SameAsInserted(loaded: seq<Ent>, inserted: seq<Ent>, expr: KeyExpr, recs: seq<Body>)
    requires Mirrors(loaded, expr, recs) && Built(inserted, expr, recs, seq(|recs|, i => false), false)
    ensures loaded == inserted
  {
    forall e ensures e in loaded <==> e in inserted {
      assert e in inserted <==> Indexed(e, expr, recs, seq(|recs|, i => false), false);
    }
    SortedUnique(loaded, inserted);
  }
}
