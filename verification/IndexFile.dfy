/** The index file: a map from page numbers to pages, changed page by page the way the engine
    does it, and proved to hold at every return the tree that module BTree computes. */
module IndexFile {
  import opened Entries
  import opened BTree
  import opened Pages

  /** What the page of a tree node shows. */
  ghost function ImageOf(t: Tree): Image {
    match t
    case Leaf(_, es) => Image(es, seq(|es| + 1, _ => 0))
    case Node(_, kids, seps) => Image(seps, seq(|kids|, i requires 0 <= i < |kids| => kids[i].pno))
  }

  /** The file holds tree t: every node's page is there and shows that node. */
  ghost predicate Rep(pages: map<nat, Image>, t: Tree) {
    && t.pno in pages && pages[t.pno] == ImageOf(t)
    && (t.Node? ==> forall i :: 0 <= i < |t.kids| ==> Rep(pages, t.kids[i]))
  }

  /** Between two states of the file only pages in touched, or new ones, differ. */
  ghost predicate Frame(pages: map<nat, Image>, pages': map<nat, Image>, touched: set<nat>) {
    forall p :: p in pages && p !in touched ==> p in pages' && pages'[p] == pages[p]
  }

  lemma PnosKid(ks: seq<Tree>, i: nat)
    requires i < |ks|
    ensures Pnos(ks[i]) <= PnosAll(ks)
  {
    PnosAt(ks, i);
  }

  lemma {:induction false} RepFrame(pages: map<nat, Image>, pages': map<nat, Image>, t: Tree, touched: set<nat>)
    requires Rep(pages, t) && Frame(pages, pages', touched) && Pnos(t) !! touched
    ensures Rep(pages', t)
    decreases t
  {
    assert t.pno in Pnos(t);
    if t.Node? {
      forall i | 0 <= i < |t.kids| ensures Rep(pages', t.kids[i]) {
        PnosKid(t.kids, i);
        RepFrame(pages, pages', t.kids[i], touched);
      }
    }
  }

  lemma FrameTrans(pages: map<nat, Image>, mid: map<nat, Image>, pages': map<nat, Image>, t: Tree)
    requires Frame(pages, mid, Pnos(t)) && Frame(mid, pages', {t.pno})
    ensures Frame(pages, pages', Pnos(t))
  {
    assert t.pno in Pnos(t);
  }

  /** A subtree of a file with pageCnt pages, ready to be worked on. */
  ghost predicate Holds(pages: map<nat, Image>, t: Tree, pageCnt: nat) {
    Rep(pages, t) && Apart(t) && AllUnder(Pnos(t), pageCnt)
  }

  lemma HoldsKid(pages: map<nat, Image>, t: Tree, pageCnt: nat, r: nat)
    requires Holds(pages, t, pageCnt) && t.Node? && r < |t.kids|
    ensures Holds(pages, t.kids[r], pageCnt)
    ensures Pnos(t.kids[r]) <= Pnos(t) && t.pno !in Pnos(t.kids[r])
  {
    PnosAt(t.kids, r);
  }

  /** Where t stands in the pages below another page: what is untouched outside child r. */
  lemma {:induction false} KidsFrame(pages: map<nat, Image>, pages': map<nat, Image>, t: Tree, r: nat,
                                     touched: set<nat>)
    requires Rep(pages, t) && Apart(t) && t.Node? && r < |t.kids| && Frame(pages, pages', touched)
    requires touched * Pnos(t) <= Pnos(t.kids[r]) + {t.pno}
    ensures forall i :: 0 <= i < |t.kids| && i != r ==> Rep(pages', t.kids[i])
  {
    PnosAt(t.kids, r);
    forall i | 0 <= i < |t.kids| && i != r ensures Rep(pages', t.kids[i]) {
      if i < r {
        PnosKid(t.kids[..r], i);
      } else {
        PnosKid(t.kids[r + 1..], i - r - 1);
        assert t.kids[r + 1..][i - r - 1] == t.kids[i];
      }
      RepFrame(pages, pages', t.kids[i], touched);
    }
  }

  lemma ImageFits(t: Tree, cap: nat)
    requires RootShaped(t, cap)
    ensures |ImageOf(t).ptrs| == |ImageOf(t).ents| + 1 <= cap + 1
  {
  }

  // ---------------------------------------------------------------- images of insertion results

  /** The entry a split sends to the page above, as it travels: separator and new page number. */
  ghost predicate SentUp(out: Slot, res: InsResult) {
    match res
    case Split(_, up, q, _) => out == Slot(q.pno, up.recno, up.key)
    case _ => out.recno == 0 && out.pno == 0
  }

  /** A page pointer is 0 exactly in a leaf; in a non-leaf page pointer r leads to child r. */
  lemma PtrOf(t: Tree, cap: nat, r: nat)
    requires RootShaped(t, cap) && r <= |ImageOf(t).ents|
    ensures ImageOf(t).ptrs[r] == 0 <==> t.Leaf?
    ensures t.Node? ==> ImageOf(t).ptrs[r] == t.kids[r].pno && Shaped(t.kids[r], cap)
    ensures t.Node? && WF(t, cap) ==> WF(t.kids[r], cap)
  {
    if t.Node? { assert Shaped(t.kids[r], cap); }
  }

  lemma FirstPtr(t: Tree, cap: nat)
    requires RootWF(t, cap)
    ensures ImageOf(t).ptrs[0] == 0 <==> t.Leaf?
  {
    RootWFShaped(t, cap);
    PtrOf(t, cap, 0);
  }

  lemma InsLeafImages(t: Tree, r: nat, x: Ent, cap: nat, pageCnt: nat)
    requires RootWF(t, cap) && t.Leaf? && 2 <= cap && r <= |t.es|
    ensures var w, n := Widened(ImageOf(t), r, Slot(0, x.recno, x.key)), cap / 2;
            var res := InsLeaf(t.pno, t.es[..r] + [x] + t.es[r..], cap, pageCnt);
            && (if |t.es| < cap then res.Done? && ImageOf(res.t) == w
                else res.Split? && ImageOf(res.left) == LeftHalf(w, n) && ImageOf(res.right) == RightHalf(w, n)
                     && res.up == w.ents[n])
  {
    var es := t.es[..r] + [x] + t.es[r..];
    assert ImageOf(Leaf(t.pno, es)).ptrs == Widened(ImageOf(t), r, Slot(0, x.recno, x.key)).ptrs;
    if |t.es| == cap { HalfLeafImages(t.pno, es, cap / 2, pageCnt); }
  }

  lemma HalfLeafImages(pno: nat, es: seq<Ent>, n: nat, qpno: nat)
    requires n < |es|
    ensures var w := ImageOf(Leaf(pno, es));
      ImageOf(Leaf(pno, es[..n + 1])) == LeftHalf(w, n) && ImageOf(Leaf(qpno, es[n + 1..])) == RightHalf(w, n)
  {
    var w := ImageOf(Leaf(pno, es));
    assert ImageOf(Leaf(pno, es[..n + 1])).ptrs == LeftHalf(w, n).ptrs;
    assert ImageOf(Leaf(qpno, es[n + 1..])).ptrs == RightHalf(w, n).ptrs;
  }

  lemma InsNodeImages(t: Tree, r: nat, l: Tree, up: Ent, q: Tree, cap: nat, pageCnt: nat)
    requires WF(t, cap) && t.Node? && 2 <= cap && r <= |t.seps| && l.pno == t.kids[r].pno
    ensures var w, n := Widened(ImageOf(t), r, Slot(q.pno, up.recno, up.key)), cap / 2;
            var res := InsNode(t.pno, t.kids[..r] + [l, q] + t.kids[r + 1..], t.seps[..r] + [up] + t.seps[r..], cap,
                pageCnt);
            && (if |t.seps| < cap then res.Done? && ImageOf(res.t) == w
                else res.Split? && ImageOf(res.left) == LeftHalf(w, n) && ImageOf(res.right) == RightHalf(w, n)
                     && res.up == w.ents[n])
  {
    var ks, seps, n := t.kids[..r] + [l, q] + t.kids[r + 1..], t.seps[..r] + [up] + t.seps[r..], cap / 2;
    assert WF(t.kids[0], cap);
    WidenedImage(t, r, l, up, q);
    if |t.seps| == cap {
      assert ks[0].pno == t.kids[0].pno;
      HalfImages(t.pno, ks, seps, n, pageCnt);
    }
  }

  /** The page with a separator and a child more. */
  lemma WidenedImage(t: Tree, r: nat, l: Tree, up: Ent, q: Tree)
    requires t.Node? && r <= |t.seps| && |t.kids| == |t.seps| + 1 && l.pno == t.kids[r].pno
    ensures ImageOf(Node(t.pno, t.kids[..r] + [l, q] + t.kids[r + 1..], t.seps[..r] + [up] + t.seps[r..]))
      == Widened(ImageOf(t), r, Slot(q.pno, up.recno, up.key))
  {
    var ks := t.kids[..r] + [l, q] + t.kids[r + 1..];
    var w := Widened(ImageOf(t), r, Slot(q.pno, up.recno, up.key));
    forall i | 0 <= i < |ks| ensures ks[i].pno == w.ptrs[i] {
      if i < r { } else if i > r + 1 { assert ks[i] == t.kids[i - 1]; }
    }
    assert ImageOf(Node(t.pno, ks, t.seps[..r] + [up] + t.seps[r..])).ptrs == w.ptrs;
  }

  lemma HalfImages(pno: nat, ks: seq<Tree>, seps: seq<Ent>, n: nat, qpno: nat)
    requires n < |seps| && |ks| == |seps| + 1 && ks[0].pno != 0
    ensures var w := ImageOf(Node(pno, ks, seps));
      && ImageOf(Node(pno, ks[..n + 1], seps[..n])) == LeftHalf(w, n)
      && ImageOf(Node(qpno, ks[n + 1..], seps[n + 1..])) == RightHalf(w, n)
  {
    var w := ImageOf(Node(pno, ks, seps));
    assert ImageOf(Node(pno, ks[..n + 1], seps[..n])).ptrs == LeftHalf(w, n).ptrs;
    assert ImageOf(Node(qpno, ks[n + 1..], seps[n + 1..])).ptrs == RightHalf(w, n).ptrs;
  }

  /** A node whose children are all there needs only its own page written. */
  lemma RepAssemble(pages: map<nat, Image>, pages': map<nat, Image>, u: Tree, touched: set<nat>)
    requires u.Node? && u.pno in pages' && pages'[u.pno] == ImageOf(u)
    requires forall i :: 0 <= i < |u.kids| ==> Rep(pages, u.kids[i])
    requires Frame(pages, pages', touched) && touched !! PnosAll(u.kids)
    ensures Rep(pages', u)
  {
    forall i | 0 <= i < |u.kids| ensures Rep(pages', u.kids[i]) {
      PnosKid(u.kids, i);
      RepFrame(pages, pages', u.kids[i], touched);
    }
  }

  ghost predicate ResultRep(pages: map<nat, Image>, res: InsResult) {
    match res
    case Done(t, _) => Rep(pages, t)
    case Split(l, _, q, _) => Rep(pages, l) && Rep(pages, q)
    case _ => true
  }

  /** The one or two pages at the top of a result have been written, and nothing else. */
  ghost predicate Written(pages: map<nat, Image>, pages': map<nat, Image>, res: InsResult) {
    if res.Done? then
      pages' == pages[res.t.pno := ImageOf(res.t)]
    else if res.Split? then
      pages' == pages[res.left.pno := ImageOf(res.left)][res.right.pno := ImageOf(res.right)]
    else true
  }

  /** Writing the one or two pages of a non-leaf result completes its trees. */
  lemma AroundRep(pages: map<nat, Image>, pages': map<nat, Image>, t: Tree, r: nat, sub: InsResult, cap: nat,
                  pageCnt: nat)
    requires WF(t, cap) && t.Node? && 2 <= cap && r <= |t.seps| && Apart(t) && AllUnder(Pnos(t), pageCnt)
    requires forall i :: 0 <= i < |t.kids| && i != r ==> Rep(pages, t.kids[i])
    requires ResultRep(pages, sub) && ResultApart(sub, t.kids[r], pageCnt)
    requires Written(pages, pages', InsAround(t.pno, t.kids, t.seps, r, sub, cap))
    ensures ResultRep(pages', InsAround(t.pno, t.kids, t.seps, r, sub, cap))
  {
    var res := InsAround(t.pno, t.kids, t.seps, r, sub, cap);
    InsAroundApart(t, r, sub, cap, pageCnt);
    if sub.Done? {
      var touched := {t.pno};
      RepAssemble(pages, pages', res.t, touched);
    } else if sub.Split? {
      RepSpliced(pages, t.kids, r, sub.left, sub.right);
      if res.Done? {
        var touched := {t.pno};
        RepAssemble(pages, pages', res.t, touched);
      } else if res.Split? {
        SplitRep(pages, pages', res.left, res.right);
      }
    }
  }

  lemma RepSpliced(pages: map<nat, Image>, kids: seq<Tree>, r: nat, l: Tree, q: Tree)
    requires r < |kids| && Rep(pages, l) && Rep(pages, q)
    requires forall i :: 0 <= i < |kids| && i != r ==> Rep(pages, kids[i])
    ensures var ks := kids[..r] + [l, q] + kids[r + 1..];
            forall i :: 0 <= i < |ks| ==> Rep(pages, ks[i])
  {
    var ks := kids[..r] + [l, q] + kids[r + 1..];
    forall i | 0 <= i < |ks| ensures Rep(pages, ks[i]) {
      if r + 1 < i { assert ks[i] == kids[i - 1]; }
    }
  }

  lemma SplitRep(pages: map<nat, Image>, pages': map<nat, Image>, l: Tree, q: Tree)
    requires l.Node? && q.Node? && Apart(l) && Apart(q) && Pnos(l) !! Pnos(q)
    requires forall i :: 0 <= i < |l.kids| ==> Rep(pages, l.kids[i])
    requires forall i :: 0 <= i < |q.kids| ==> Rep(pages, q.kids[i])
    requires pages' == pages[l.pno := ImageOf(l)][q.pno := ImageOf(q)]
    ensures Rep(pages', l) && Rep(pages', q)
  {
    var touched := {l.pno, q.pno};
    assert l.pno in Pnos(l) && q.pno in Pnos(q) && PnosAll(l.kids) <= Pnos(l) && PnosAll(q.kids) <= Pnos(q);
    RepAssemble(pages, pages', l, touched);
    RepAssemble(pages, pages', q, touched);
  }

  /** What a page has in hand when it resumes after the descent: in a leaf the target itself,
      in a non-leaf page what its child sent up, with the child's trees in the file. */
  ghost predicate Resumes(pages: map<nat, Image>, t: Tree, r: nat, x: Ent, up: Slot, sub: InsResult, cap: nat,
                          cnt: nat, pageCnt: nat)
    requires t.Node? ==> |t.kids| == |t.seps| + 1
  {
    match t
    case Leaf(_, es) => r <= |es| && up == Slot(0, x.recno, x.key) && 0 < x.recno && pages != map[] && t.pno < pageCnt
    case Node(_, kids, seps) =>
      && r <= |seps| && (sub.Done? || sub.Split?) && SentUp(up, sub)
      && Apart(t) && AllUnder(Pnos(t), cnt) && ResultApart(sub, kids[r], cnt)
      && ResultRep(pages, sub) && sub.next == pageCnt && cnt <= pageCnt && (sub.Split? ==> 0 < sub.right.pno)
      && (forall i :: 0 <= i < |kids| && i != r ==> Rep(pages, kids[i]))
  }

  ghost function Resumed(t: Tree, r: nat, x: Ent, sub: InsResult, cap: nat, pageCnt: nat): InsResult
    requires RootWF(t, cap) && 2 <= cap && r <= (if t.Leaf? then |t.es| else |t.seps|)
  {
    if t.Leaf? then InsLeaf(t.pno, t.es[..r] + [x] + t.es[r..], cap, pageCnt)
    else InsAround(t.pno, t.kids, t.seps, r, sub, cap)
  }

  lemma InsUnfold(t: Tree, r: nat, x: Ent, unique: bool, cap: nat, cnt: nat)
    requires RootWF(t, cap) && 2 <= cap && r == Pos(Bounds(t), Probe(x, unique)) && !Hits(Bounds(t), r, x, unique)
    ensures t.Leaf? ==> Ins(t, x, unique, cap, cnt) == Resumed(t, r, x, Duplicate, cap, cnt)
    ensures t.Node? ==>
      var sub := Ins(t.kids[r], x, unique, cap, cnt);
      && (CodeOf(sub) != OK ==> CodeOf(Ins(t, x, unique, cap, cnt)) == CodeOf(sub))
      && (CodeOf(sub) == OK ==> Ins(t, x, unique, cap, cnt) == Resumed(t, r, x, sub, cap, sub.next))
  {
  }

  /** Writing the widened page, or its two halves, gives the file the resulting trees. */
  lemma ResumedRep(pages: map<nat, Image>, pages': map<nat, Image>, t: Tree, r: nat, x: Ent, up: Slot, sub: InsResult,
                   cap: nat, cnt: nat, pageCnt: nat)
    requires RootWF(t, cap) && 2 <= cap && Resumes(pages, t, r, x, up, sub, cap, cnt, pageCnt)
    requires up.recno != 0 || up.pno != 0
    requires !Resumed(t, r, x, sub, cap, pageCnt).Invalid?
    requires var w, n := Widened(ImageOf(t), r, up), cap / 2;
             pages' == if |ImageOf(t).ents| < cap then pages[t.pno := w]
                       else pages[t.pno := LeftHalf(w, n)][pageCnt := RightHalf(w, n)]
    ensures var res := Resumed(t, r, x, sub, cap, pageCnt);
            && ResultRep(pages', res)
            && (if |ImageOf(t).ents| < cap then res.Done? && res.next == pageCnt
                else res.Split? && res.next == pageCnt + 1 && res.right.pno == pageCnt
                     && res.up == Widened(ImageOf(t), r, up).ents[cap / 2])
  {
    if t.Leaf? {
      InsLeafImages(t, r, x, cap, pageCnt);
    } else {
      InsNodeImages(t, r, sub.left, sub.up, sub.right, cap, pageCnt);
      AroundRep(pages, pages', t, r, sub, cap, cnt);
    }
  }

  /** Nothing came up: the page itself does not change. */
  lemma QuietRep(pages: map<nat, Image>, t: Tree, r: nat, x: Ent, up: Slot, sub: InsResult, cap: nat, cnt: nat,
                 pageCnt: nat)
    requires WF(t, cap) && t.Node? && 2 <= cap && Resumes(pages, t, r, x, up, sub, cap, cnt, pageCnt)
    requires sub.Done? && t.pno in pages && pages[t.pno] == ImageOf(t)
    ensures ResultRep(pages, Resumed(t, r, x, sub, cap, pageCnt))
  {
    var u := Node(t.pno, t.kids[r := sub.t], t.seps);
    assert ImageOf(u) == ImageOf(t);
    assert pages == pages[t.pno := ImageOf(u)];
    AroundRep(pages, pages, t, r, sub, cap, cnt);
  }

  /** What a refused insertion leaves is in the file: the page itself was not written. */
  lemma RemainsRep(pages: map<nat, Image>, t: Tree, r: nat, x: Ent, unique: bool, cap: nat, cnt: nat)
    requires RootWF(t, cap) && 2 <= cap && t.Node? && t.pno in pages && pages[t.pno] == ImageOf(t)
    requires Ins(t, x, unique, cap, cnt) == Invalid && r == Pos(Bounds(t), Probe(x, unique))
    requires forall i :: 0 <= i < |t.kids| && i != r ==> Rep(pages, t.kids[i])
    requires var sub := Ins(t.kids[r], x, unique, cap, cnt);
      (sub.Invalid? || sub.Split?) && Rep(pages, LeftOf(t.kids[r], x, unique, cap, cnt))
    ensures Rep(pages, Remains(t, x, unique, cap, cnt))
  {
    var left := LeftOf(t.kids[r], x, unique, cap, cnt);
    SplitPno(t.kids[r], x, unique, cap, cnt);
    RemainsIs(t, x, unique, cap, cnt);
    var u := Node(t.pno, t.kids[r := left], t.seps);
    assert ImageOf(u) == ImageOf(t);
  }

  // ---------------------------------------------------------------- images of deletion results

  /** A page like t's whose entries or pointers changed, over children that are all in the file. */
  lemma RepPage(pages: map<nat, Image>, pages': map<nat, Image>, u: Tree)
    requires u.Node? && Apart(u) && pages' == pages[u.pno := ImageOf(u)]
    requires forall i :: 0 <= i < |u.kids| ==> Rep(pages, u.kids[i])
    ensures Rep(pages', u)
  {
    var touched := {u.pno};
    RepAssemble(pages, pages', u, touched);
  }

  ghost predicate TrimRep(pages: map<nat, Image>, res: TrimResult) {
    !res.NoneLeft? ==> Rep(pages, RestOfTrim(res))
  }

  /** The page of t after its last child came back as sub. */
  ghost function TrimImage(img: Image, sub: TrimResult): Image
    requires 1 <= |img.ents| && |img.ptrs| == |img.ents| + 1
  {
    var n := |img.ents|;
    match sub
    case NoneLeft => Image(img.ents[..n - 1], img.ptrs[..n])
    case Lone(u, _) => Image(img.ents, img.ptrs[n := u.pno])
    case Trimmed(_, _) => img
  }

  lemma TrimAroundRep(pages: map<nat, Image>, pages': map<nat, Image>, t: Tree, sub: TrimResult, cap: nat)
    requires WF(t, cap) && t.Node? && Apart(t)
    requires sub == Trim(t.kids[|t.seps|], cap) && TrimRep(pages, sub)
    requires forall i :: 0 <= i < |t.seps| ==> Rep(pages, t.kids[i])
    requires pages' == pages[t.pno := TrimImage(ImageOf(t), sub)]
    ensures TrimRep(pages', Trim(t, cap))
  {
    var n, res := |t.seps|, Trim(t, cap);
    PnosDrop(t.kids, n);
    TrimKeepsApart(t, cap);
    TrimKeepsApart(t.kids[n], cap);
    if res.Lone? {
      var touched := {t.pno};
      PnosKid(t.kids, 0);
      RepFrame(pages, pages', t.kids[0], touched);
    } else {
      assert ImageOf(res.t) == TrimImage(ImageOf(t), sub);
      RepPage(pages, pages', res.t);
    }
  }

  ghost predicate DelRep(pages: map<nat, Image>, res: DelResult) {
    res.Orphan? || res.Kept? ==> Rep(pages, Rest(res))
  }

  /** Dropping child r: the page is narrowed, or its only other child is handed up. */
  lemma DropRep(pages: map<nat, Image>, pages': map<nat, Image>, t: Tree, r: nat, cap: nat)
    requires WF(t, cap) && t.Node? && Apart(t) && r <= |t.seps|
    requires forall i :: 0 <= i < |t.kids| && i != r ==> Rep(pages, t.kids[i])
    requires pages' == pages[t.pno := Narrowed(ImageOf(t), r)]
    ensures DelRep(pages', DropChild(t.pno, t.kids, t.seps, r))
    ensures |t.seps| == 1 ==> Narrowed(ImageOf(t), r).ptrs[0] == t.kids[1 - r].pno
  {
    PnosDrop(t.kids, r);
    if |t.seps| == 1 {
      var touched := {t.pno};
      RepFrame(pages, pages', t.kids[1 - r], touched);
    } else {
      DropKeptRep(pages, pages', t, r);
    }
  }

  lemma DropKeptRep(pages: map<nat, Image>, pages': map<nat, Image>, t: Tree, r: nat)
    requires t.Node? && Apart(t) && 1 < |t.seps| && |t.kids| == |t.seps| + 1 && r <= |t.seps|
    requires forall i :: 0 <= i < |t.kids| && i != r ==> Rep(pages, t.kids[i])
    requires pages' == pages[t.pno := Narrowed(ImageOf(t), r)]
    ensures DelRep(pages', DropChild(t.pno, t.kids, t.seps, r))
  {
    var u := DropChild(t.pno, t.kids, t.seps, r).t;
    PnosDrop(t.kids, r);
    DropImage(t, r);
    RepPage(pages, pages', u);
  }

  lemma DropImage(t: Tree, r: nat)
    requires t.Node? && 1 < |t.seps| && |t.kids| == |t.seps| + 1 && r <= |t.seps|
    ensures ImageOf(DropChild(t.pno, t.kids, t.seps, r).t) == Narrowed(ImageOf(t), r)
  {
    var img, out := ImageOf(t), ImageOf(DropChild(t.pno, t.kids, t.seps, r).t);
    assert out.ptrs == Cut(img.ptrs, r);
    assert out.ents == Cut(img.ents, if r < |img.ents| then r else r - 1);
  }

  /** Child r replaced by u, separator r possibly by sep. */
  lemma SwapRep(pages: map<nat, Image>, pages': map<nat, Image>, t: Tree, r: nat, u: Tree, seps: seq<Ent>)
    requires t.Node? && Apart(t) && |t.kids| == |t.seps| + 1 == |seps| + 1 && r < |t.kids|
    requires Apart(u) && Pnos(u) <= Pnos(t.kids[r]) && Rep(pages, u)
    requires forall i :: 0 <= i < |t.kids| && i != r ==> Rep(pages, t.kids[i])
    requires pages' == pages[t.pno := Image(seps, ImageOf(t).ptrs[r := u.pno])]
    ensures Rep(pages', Node(t.pno, t.kids[r := u], seps))
  {
    var v := Node(t.pno, t.kids[r := u], seps);
    PnosReplace(t.kids, r, u);
    assert ImageOf(v) == Image(seps, ImageOf(t).ptrs[r := u.pno]);
    RepPage(pages, pages', v);
  }

  function CodeOf(res: InsResult): Code {
    match res
    case Duplicate => DUPKEY
    case Invalid => INVALID_ENTRY
    case _ => OK
  }

  function Cmp(a: int, b: int): int {
    if a > b then 1 else if a < b then -1 else 0
  }

  datatype Code = OK | DUPKEY | INVALID_ENTRY | NTNDX

  class Index {
    const cap: nat                      // norecpp
    var unique: bool                    // SET UNIQUE ON
    var pages: map<nat, Image>
    var pageCnt: nat
    var rootNo: nat
    var pageNo: nat                     // the cursor
    var entryNo: nat
    ghost var tree: Tree                // the tree below rootNo

    /** The index between operations. An index without entries may also have no root page. */
    ghost predicate Valid()
      reads this
    {
      && 2 <= cap && 0 < pageCnt && AllUnder(pages.Keys, pageCnt)
      && (rootNo != 0 ==>
           tree.pno == rootNo && RootWF(tree, cap) && Holds(pages, tree, pageCnt) && Sorted(Flat(tree)))
    }

    /** An index that can be searched and walked; the fast builder leaves one. Only the root has
        to have an entry if there are pages below it. */
    ghost predicate Readable()
      reads this
    {
      && 2 <= cap && 0 < pageCnt
      && (rootNo != 0 ==>
           tree.pno == rootNo && RootShaped(tree, cap) && (tree.Node? ==> tree.seps != [])
           && Holds(pages, tree, pageCnt) && Sorted(Flat(tree)))
    }

    /** The entries of the index in order. */
    ghost function Entries(): seq<Ent>
      reads this
    {
      if rootNo == 0 then [] else Flat(tree)
    }

    /** A new index file: the header page only. */
    constructor (cap: nat)
      requires 2 <= cap
      ensures Valid() && Entries() == [] && this.cap == cap && !unique && pageCnt == 1 && rootNo == 0 && pageNo == 0
    {
      this.cap, unique, pages, pageCnt, rootNo, pageNo, entryNo := cap, false, map[], 1, 0, 0, 0;
      tree := Leaf(0, []);
    }

    /** A private copy of a page. Past the end of the file the page is blank, and so is a page
        that was skipped when a later one was written. */
    method GetPage(pno: nat) returns (p: PageBuf)
      requires pno < pageCnt && pno in pages ==> |pages[pno].ptrs| == |pages[pno].ents| + 1 <= cap + 1
      ensures fresh(p) && fresh(p.slot) && p.slot.Length == cap + 1
      ensures p.Holds(if pno < pageCnt && pno in pages then pages[pno] else Image([], [0]))
    {
      if pno < pageCnt && pno in pages {
        p := new PageBuf.Read(pages[pno], cap);
      } else {
        p := new PageBuf.Blank(cap);
      }
    }

    method WritePage(pno: nat, p: PageBuf, ghost img: Image)
      requires p.Holds(img) && p.cnt < p.slot.Length
      modifies this`pages
      ensures pages == old(pages)[pno := img]
    {
      var i := p.ToImage();
      assert i.ents == img.ents && i.ptrs == img.ptrs;
      pages := pages[pno := i];
    }

    /** Compare a record number with that of the last leaf entry below page pno. */
    method BtLr(pno: nat, recnum: nat, ghost t: Tree) returns (e: int)
      requires Shaped(t, cap) && Rep(pages, t) && AllUnder(Pnos(t), pageCnt) && t.pno == pno
      ensures e == Cmp(recnum, Last(t).recno)
    {
      ghost var u := t;
      ImageFits(u, cap);
      assert u.pno in Pnos(u);
      var p := GetPage(pno);
      while p.slot[0].pno != 0
        invariant Shaped(u, cap) && Rep(pages, u) && AllUnder(Pnos(u), pageCnt) && Last(u) == Last(t)
        invariant fresh(p) && fresh(p.slot) && p.slot.Length == cap + 1 && p.Holds(ImageOf(u))
        decreases u
      {
        PnosKid(u.kids, |u.seps|);
        u := u.kids[|u.seps|];
        ImageFits(u, cap);
        assert u.pno in Pnos(u);
        p := GetPage(p.slot[p.cnt].pno);
      }
      e := Cmp(recnum, p.slot[p.cnt - 1].recno);
    }

    /** Compare target with entry r of a page, as deep as needed. */
    method Compare(p: PageBuf, r: nat, target: Slot, ghost t: Tree) returns (e: int)
      requires RootShaped(t, cap) && Rep(pages, t) && AllUnder(Pnos(t), pageCnt)
      requires p.Holds(ImageOf(t)) && p.slot.Length == cap + 1 && r < p.cnt
      ensures e > 0 <==> Less(Bounds(t)[r], Rec(target))
      ensures e == 0 <==> Bounds(t)[r] == Rec(target)
    {
      assert Rec(p.slot[..][r]) == ImageOf(t).ents[r] && p.slot[..][r].pno == ImageOf(t).ptrs[r];
      assert t.Node? ==> Bounds(t)[r] == Last(t.kids[r]) && t.seps[r].key == Last(t.kids[r]).key 
                             && Shaped(t.kids[r], cap) && 0 < t.kids[r].pno;
      e := Cmp(target.key, p.slot[r].key);
      if e == 0 {
        if p.slot[r].pno == 0 {
          e := Cmp(target.recno, p.slot[r].recno);
        } else {
          PnosKid(t.kids, r);
          e := BtLr(p.slot[r].pno, target.recno, t.kids[r]);
        }
      }
    }

    /** The scan of btsrin: where target goes in this page, and whether that place is taken. */
    method InsScan(p: PageBuf, target: Slot, ghost t: Tree) returns (r: nat, dup: bool)
      requires RootWF(t, cap) && Rep(pages, t) && AllUnder(Pnos(t), pageCnt)
      requires p.Holds(ImageOf(t)) && p.slot.Length == cap + 1
      ensures r <= p.cnt && r == Pos(Bounds(t), Probe(Rec(target), unique))
      ensures dup <==> Hits(Bounds(t), r, Rec(target), unique)
    {
      ghost var b, y := Bounds(t), Probe(Rec(target), unique);
      RootWFShaped(t, cap);
      var e := 1;
      r, dup := 0, false;
      while e > 0 && r < p.cnt
        invariant r <= p.cnt == |b|
        invariant forall i :: 0 <= i < r ==> Less(b[i], y)
        invariant e <= 0 ==> r < p.cnt && !Less(b[r], y) && !Hits(b, r, Rec(target), unique)
        decreases p.cnt - r, e
      {
        e := Cmp(target.key, p.slot[r].key);
        if e == 0 && unique {
          PosUnique(b, y, r);
          return r, true;
        }
        if e == 0 {
          e := Compare(p, r, target, t);
        }
        if e == 0 {
          PosUnique(b, y, r);
          return r, true;
        }
        if e > 0 { r := r + 1; }
      }
      PosUnique(b, y, r);
    }

    /** A page with room takes what came from below and is written back. */
    method Absorb(p: PageBuf, pno: nat, r: nat, target: Slot, ghost img: Image)
      requires p.Holds(img) && p.slot.Length == cap + 1 && r <= p.cnt < cap
      requires if img.ptrs[0] == 0 then target.recno != 0 else target.pno != 0
      modifies this`pages, this`pageCnt, this`pageNo, this`entryNo, p, p.slot
      ensures pages == old(pages)[pno := Widened(img, r, target)]
      ensures pageCnt == old(pageCnt)
    {
      var _, leaf := InsertWithRoom(p, r, target, img);
      if leaf { pageNo, entryNo := pno, r; }
      WritePage(pno, p, Widened(img, r, target));
    }

    /** A full page is cut in two; the new page is the next one of the file. */
    method Overflow(p: PageBuf, pno: nat, r: nat, target: Slot, ghost img: Image) returns (ok: bool, out: Slot)
      requires p.Holds(img) && p.slot.Length == cap + 1 && r <= p.cnt == cap && 2 <= cap
      requires pno < pageCnt
      modifies this`pages, this`pageCnt, this`pageNo, this`entryNo, p, p.slot
      ensures ok <==> if r > cap / 2 || img.ptrs[0] == 0 then target.recno != 0 else target.pno != 0
      ensures !ok ==> pages == old(pages) && pageCnt == old(pageCnt)
      ensures ok ==>
        var w, n := Widened(img, r, target), cap / 2;
        && pages == old(pages)[pno := LeftHalf(w, n)][old(pageCnt) := RightHalf(w, n)]
        && pageCnt == old(pageCnt) + 1
        && out == Slot(old(pageCnt), w.ents[n].recno, w.ents[n].key)
    {
      var qno := pageCnt;
      var q := GetPage(qno);
      assert q.slot[..][0].pno == 0;
      var up;
      ok, up := CutInTwo(p, pno, q, qno, r, target, img);
      out := Slot(qno, up.recno, up.key);
      if ok {
        ghost var w, n := Widened(img, r, target), cap / 2;
        pageCnt := pageCnt + 1;
        WriteTwo(pno, p, LeftHalf(w, n), qno, q, RightHalf(w, n));
      }
    }

    /** Split the page in its buffers; the cursor follows the new entry of a leaf. */
    method CutInTwo(p: PageBuf, pno: nat, q: PageBuf, qno: nat, r: nat, target: Slot, ghost img: Image)
      returns (ok: bool, up: Slot)
      requires p != q && p.slot != q.slot && p.Holds(img) && 2 <= p.cnt < p.slot.Length
      requires q.slot.Length == p.slot.Length && q.slot[0].pno == 0 && r <= p.cnt
      modifies this`pageNo, this`entryNo, p, q, p.slot, q.slot
      ensures ok <==> if r > |img.ents| / 2 || img.ptrs[0] == 0 then target.recno != 0 else target.pno != 0
      ensures ok ==>
        var w, n := Widened(img, r, target), |img.ents| / 2;
        && p.Holds(LeftHalf(w, n)) && p.cnt < p.slot.Length
        && q.Holds(RightHalf(w, n)) && q.cnt < q.slot.Length
        && Rec(up) == w.ents[n]
    {
      var n := p.cnt / 2;
      var leaf;
      ok, up, leaf := SplitPage(p, q, r, target, img);
      if leaf {
        if r > n { pageNo, entryNo := qno, r - n - 1; } else { pageNo, entryNo := pno, r; }
      }
    }

    method WriteTwo(pno: nat, p: PageBuf, ghost a: Image, qno: nat, q: PageBuf, ghost b: Image)
      requires p.Holds(a) && p.cnt < p.slot.Length && q.Holds(b) && q.cnt < q.slot.Length
      modifies this`pages
      ensures pages == old(pages)[pno := a][qno := b]
    {
      WritePage(pno, p, a);
      WritePage(qno, q, b);
    }

    /** Resume at a page after the descent into child r. */
    method Resume(p: PageBuf, pno: nat, r: nat, up: Slot, ghost t: Tree, ghost x: Ent, ghost sub: InsResult,
                  ghost cnt: nat)
      returns (rc: Code, out: Slot)
      requires 2 <= cap && RootWF(t, cap) && t.pno == pno && pno in pages && pages[pno] == ImageOf(t) && pno < pageCnt
      requires Resumes(pages, t, r, x, up, sub, cap, cnt, pageCnt)
      requires p.Holds(ImageOf(t)) && p.slot.Length == cap + 1 && AllUnder(pages.Keys, pageCnt)
      modifies this`pages, this`pageCnt, this`pageNo, this`entryNo, p, p.slot
      ensures AllUnder(pages.Keys, pageCnt)
      ensures Frame(old(pages), pages, {pno}) && old(pageCnt) <= pageCnt
      ensures var res := Resumed(t, r, x, sub, cap, old(pageCnt));
              && rc == CodeOf(res) && rc != DUPKEY
              && (rc == OK ==> SentUp(out, res) && ResultRep(pages, res) && pageCnt == res.next)
      ensures rc == INVALID_ENTRY ==> pages == old(pages) && t.Node? && sub.Split?
    {
      if up.recno == 0 && up.pno == 0 {
        QuietRep(pages, t, r, x, up, sub, cap, cnt, pageCnt);
        return OK, up;
      }
      FirstPtr(t, cap);
      if p.cnt < cap {
        Absorb(p, pno, r, up, ImageOf(t));
        ResumedRep(old(pages), pages, t, r, x, up, sub, cap, cnt, pageCnt);
        rc, out := OK, Slot(0, 0, up.key);
      } else {
        rc, out := ResumeFull(p, pno, r, up, t, x, sub, cnt);
      }
    }

    /** The page is full: it is cut in two, unless the entry from below has record number 0. */
    method ResumeFull(p: PageBuf, pno: nat, r: nat, up: Slot, ghost t: Tree, ghost x: Ent, ghost sub: InsResult,
                      ghost cnt: nat)
      returns (rc: Code, out: Slot)
      requires 2 <= cap && RootWF(t, cap) && t.pno == pno && pno < pageCnt
      requires Resumes(pages, t, r, x, up, sub, cap, cnt, pageCnt) && (up.recno != 0 || up.pno != 0)
      requires p.Holds(ImageOf(t)) && p.slot.Length == cap + 1 && p.cnt == cap && AllUnder(pages.Keys, pageCnt)
      requires ImageOf(t).ptrs[0] == 0 <==> t.Leaf?
      modifies this`pages, this`pageCnt, this`pageNo, this`entryNo, p, p.slot
      ensures AllUnder(pages.Keys, pageCnt)
      ensures Frame(old(pages), pages, {pno}) && old(pageCnt) <= pageCnt
      ensures var res := Resumed(t, r, x, sub, cap, old(pageCnt));
              && rc == CodeOf(res) && rc != DUPKEY
              && (rc == OK ==> SentUp(out, res) && ResultRep(pages, res) && pageCnt == res.next)
      ensures rc == INVALID_ENTRY ==> pages == old(pages) && t.Node? && sub.Split?
    {
      var ok;
      ok, out := Overflow(p, pno, r, up, ImageOf(t));
      rc := if ok then OK else INVALID_ENTRY;
      if ok {
        ResumedRep(old(pages), pages, t, r, x, up, sub, cap, cnt, old(pageCnt));
      }
    }

    /** Insert target below page pno. A return with nothing in out means the work is done;
        otherwise out carries what the page above has to take in. Page 0 stands for "no page":
        the target itself is still to be placed. */
    method BtSrIn(pno: nat, target: Slot, ghost t: Tree) returns (rc: Code, out: Slot)
      requires 2 <= cap && 0 < target.recno && target.pno == 0 && 0 < pageCnt && AllUnder(pages.Keys, pageCnt)
      requires pno != 0 ==> t.pno == pno && RootWF(t, cap) && Holds(pages, t, pageCnt)
      modifies this`pages, this`pageCnt, this`pageNo, this`entryNo
      ensures AllUnder(pages.Keys, pageCnt)
      ensures pno == 0 ==> rc == OK && out == target && pages == old(pages) && pageCnt == old(pageCnt)
      ensures pno != 0 ==>
        var res := Ins(t, Rec(target), unique, cap, old(pageCnt));
        && rc == CodeOf(res)
        && (rc == OK ==> SentUp(out, res) && ResultRep(pages, res) && pageCnt == res.next)
        && (rc == DUPKEY ==> pages == old(pages) && pageCnt == old(pageCnt))
        && (rc == INVALID_ENTRY ==> Rep(pages, Remains(t, Rec(target), unique, cap, old(pageCnt))))
      ensures old(pageCnt) <= pageCnt
      ensures pno != 0 ==> Frame(old(pages), pages, Pnos(t))
      decreases t, if pno == 0 then 0 else 1, 2
    {
      if pno == 0 {
        return OK, target;
      }
      RootWFShaped(t, cap);
      ImageFits(t, cap);
      assert t.pno in Pnos(t);
      var p := GetPage(pno);
      var r, dup := InsScan(p, target, t);
      if dup {
        return DUPKEY, target;
      }
      rc, out := InsAt(p, pno, r, target, t);
    }

    /** btsrin once the place r is known: descend, then take in what comes back. */
    method InsAt(p: PageBuf, pno: nat, r: nat, target: Slot, ghost t: Tree) returns (rc: Code, out: Slot)
      requires 2 <= cap && 0 < target.recno && target.pno == 0 && 0 < pageCnt && AllUnder(pages.Keys, pageCnt)
      requires t.pno == pno && pno < pageCnt && RootWF(t, cap) && Holds(pages, t, pageCnt)
      requires p.Holds(ImageOf(t)) && p.slot.Length == cap + 1 && r == Pos(Bounds(t), Probe(Rec(target), unique))
      requires !Hits(Bounds(t), r, Rec(target), unique)
      modifies this`pages, this`pageCnt, this`pageNo, this`entryNo, p, p.slot
      ensures AllUnder(pages.Keys, pageCnt) && old(pageCnt) <= pageCnt
      ensures
        var res := Ins(t, Rec(target), unique, cap, old(pageCnt));
        && rc == CodeOf(res)
        && (rc == OK ==> SentUp(out, res) && ResultRep(pages, res) && pageCnt == res.next)
        && (rc == DUPKEY ==> pages == old(pages) && pageCnt == old(pageCnt))
        && (rc == INVALID_ENTRY ==> Rep(pages, Remains(t, Rec(target), unique, cap, old(pageCnt))))
      ensures Frame(old(pages), pages, Pnos(t))
      decreases t, 1, 1
    {
      var pn3 := p.slot[r].pno;
      assert pn3 == p.slot[..][r].pno;
      InsUnfold(t, r, Rec(target), unique, cap, pageCnt);
      rc, out := InsBelow(pn3, target, t, r);
      if rc != OK {
        if rc == INVALID_ENTRY { RemainsRep(pages, t, r, Rec(target), unique, cap, old(pageCnt)); }
        return;
      }
      ghost var mid, cnt := pages, pageCnt;
      ghost var sub := if t.Leaf? then Duplicate else Ins(t.kids[r], Rec(target), unique, cap, old(pageCnt));
      rc, out := Resume(p, pno, r, out, t, Rec(target), sub, old(pageCnt));
      assert Ins(t, Rec(target), unique, cap, old(pageCnt)) == Resumed(t, r, Rec(target), sub, cap, cnt);
      FrameTrans(old(pages), mid, pages, t);
      if rc == INVALID_ENTRY { RemainsRep(pages, t, r, Rec(target), unique, cap, old(pageCnt)); }
    }

    /** The descent of btsrin into child r. */
    method InsBelow(pn3: nat, target: Slot, ghost t: Tree, ghost r: nat) returns (rc: Code, out: Slot)
      requires 2 <= cap && 0 < target.recno && target.pno == 0 && 0 < pageCnt && AllUnder(pages.Keys, pageCnt)
      requires RootWF(t, cap) && Holds(pages, t, pageCnt) && r <= |ImageOf(t).ents| && pn3 == ImageOf(t).ptrs[r]
      modifies this`pages, this`pageCnt, this`pageNo, this`entryNo
      ensures AllUnder(pages.Keys, pageCnt) && old(pageCnt) <= pageCnt
      ensures t.pno in pages && pages[t.pno] == ImageOf(t)
      ensures t.Leaf? ==> rc == OK && out == target && pages == old(pages) && pageCnt == old(pageCnt)
      ensures t.Node? ==>
        var sub := Ins(t.kids[r], Rec(target), unique, cap, old(pageCnt));
        && rc == CodeOf(sub)
        && (rc == DUPKEY ==> pages == old(pages) && pageCnt == old(pageCnt))
        && (rc == INVALID_ENTRY ==>
              Rep(pages, Remains(t.kids[r], Rec(target), unique, cap, old(pageCnt)))
              && forall i :: 0 <= i < |t.kids| && i != r ==> Rep(pages, t.kids[i]))
        && (rc == OK ==> Resumes(pages, t, r, Rec(target), out, sub, cap, old(pageCnt), pageCnt))
      ensures Frame(old(pages), pages, Pnos(t))
      decreases t, 1, 0
    {
      RootWFShaped(t, cap);
      PtrOf(t, cap, r);
      if t.Node? {
        HoldsKid(pages, t, pageCnt, r);
        InsKeepsApart(t.kids[r], Rec(target), unique, cap, pageCnt);
        InsNext(t.kids[r], Rec(target), unique, cap, pageCnt);
      }
      rc, out := BtSrIn(pn3, target, if t.Leaf? then t else t.kids[r]);
      if t.Node? {
        KidsFrame(old(pages), pages, t, r, Pnos(t.kids[r]));
      }
    }

    /** Put the last entry of p, with its record number or without, over separator itmno of q and
        write q back; the pointer right of that separator stays. */
    method MoveUp(p: PageBuf, apno: nat, q: PageBuf, itmno: nat, keep: bool, ghost pimg: Image, ghost img: Image)
      requires p != q && p.slot != q.slot && p.Holds(pimg) && 1 <= p.cnt < p.slot.Length
      requires q.Holds(img) && itmno < q.cnt < q.slot.Length
      modifies this`pages, q.slot
      ensures var last := pimg.ents[|pimg.ents| - 1];
              var sep := if keep then last else Ent(last.key, 0);
              q.Holds(Image(img.ents[itmno := sep], img.ptrs))
                  && pages == old(pages)[apno := Image(img.ents[itmno := sep], img.ptrs)]
    {
      var pn := q.slot[itmno + 1].pno;
      assert pn == q.slot[..][itmno + 1].pno == img.ptrs[itmno + 1];
      assert Rec(p.slot[..][p.cnt - 1]) == pimg.ents[|pimg.ents| - 1];
      MoveEntry(p, p.cnt - 1, q, itmno);
      if !keep {
        q.slot[itmno] := q.slot[itmno].(recno := 0);
      }
      q.PutPageno(itmno + 1, pn);
      ghost var last := pimg.ents[|pimg.ents| - 1];
      ghost var sep := if keep then last else Ent(last.key, 0);
      MovedUp(old(q.slot[..]), q.slot[..], img, itmno, sep);
      WritePage(apno, q, Image(img.ents[itmno := sep], img.ptrs));
    }

    /** The page at the end of a chain of last children loses its last entry; what is now last
        goes up to separator itmno of q. */
    method TrimLeaf(p: PageBuf, ppno: nat, apno: nat, q: PageBuf, itmno: nat, ghost t: Tree, ghost img: Image)
      returns (rm: bool)
      requires WF(t, cap) && t.Leaf? && t.pno == ppno && Apart(t) && apno != ppno
      requires p != q && p.slot != q.slot && p.Holds(ImageOf(t)) && p.slot.Length == cap + 1
      requires q.Holds(img) && itmno < q.cnt < q.slot.Length
      modifies this`pages, p, q.slot
      ensures rm <==> Trim(t, cap).NoneLeft?
      ensures Frame(old(pages), pages, Pnos(t) + {apno})
        && pages.Keys == old(pages).Keys + {ppno} + if rm then {} else {apno}
      ensures TrimRep(pages, Trim(t, cap)) && TrimNote(pages, apno, q, itmno, img, Trim(t, cap))
    {
      ghost var es := t.es[..|t.es| - 1];
      ghost var pimg := Image(es, seq(|es| + 1, _ => 0));
      p.cnt := p.cnt - 1;
      assert p.Holds(pimg);
      WritePage(ppno, p, pimg);
      rm := p.cnt == 0;
      if !rm {
        MoveUp(p, apno, q, itmno, false, pimg, img);
        assert ImageOf(Trim(t, cap).t) == pimg;
      }
    }

    /** What the buffer q of the ancestor, and its page in the file, show after the trim. */
    ghost predicate TrimNote(pages: map<nat, Image>, apno: nat, q: PageBuf, itmno: nat, img: Image, res: TrimResult)
      reads q, q.slot
    {
      itmno < |img.ents| &&
      if res.NoneLeft? then q.Holds(img)
      else
        var img' := Image(img.ents[itmno := res.sep], img.ptrs);
        q.Holds(img') && apno in pages && pages[apno] == img'
    }

    /** A non-leaf page on that chain whose last child is gone, or came back as another page. */
    method TrimNode(p: PageBuf, ppno: nat, apno: nat, q: PageBuf, itmno: nat, orphan: nat, ghost t: Tree,
                    ghost img: Image)
      returns (rm: bool, out: nat)
      requires WF(t, cap) && t.Node? && t.pno == ppno && Apart(t) && apno !in Pnos(t)
      requires p != q && p.slot != q.slot && p.Holds(ImageOf(t)) && p.slot.Length == cap + 1
      requires itmno < q.cnt < q.slot.Length
      requires forall i :: 0 <= i < |t.seps| ==> Rep(pages, t.kids[i])
      requires var sub := Trim(t.kids[|t.seps|], cap);
               && !sub.Trimmed? && orphan == (if sub.Lone? then sub.u.pno else 0)
               && TrimRep(pages, sub) && TrimNote(pages, apno, q, itmno, img, sub)
      modifies this`pages, p, p.slot, q.slot
      ensures Frame(old(pages), pages, {ppno, apno}) && pages.Keys <= old(pages).Keys + {ppno, apno}
      ensures var res := Trim(t, cap);
              && (rm <==> res.Lone?) && out == (if res.Lone? then res.u.pno else 0)
              && TrimRep(pages, res) && TrimNote(pages, apno, q, itmno, img, res)
    {
      ghost var sub := Trim(t.kids[|t.seps|], cap);
      TrimCorrect(t.kids[|t.seps|], cap);
      if orphan != 0 {
        p.PutPageno(p.cnt, orphan);
        WritePage(ppno, p, TrimImage(ImageOf(t), sub));
        TrimAroundRep(old(pages), pages, t, sub, cap);
        return false, 0;
      }
      TrimShift(p, ppno, apno, q, itmno, t, img);
      out := if p.cnt == 0 then p.slot[0].pno else 0;
      rm := p.cnt == 0;
    }

    /** The last child is gone: the last separator moves up into q and the page ends before it. */
    method TrimShift(p: PageBuf, ppno: nat, apno: nat, q: PageBuf, itmno: nat, ghost t: Tree, ghost img: Image)
      requires WF(t, cap) && t.Node? && t.pno == ppno && Apart(t) && apno !in Pnos(t)
      requires p != q && p.slot != q.slot && p.Holds(ImageOf(t)) && p.slot.Length == cap + 1
      requires itmno < q.cnt < q.slot.Length && q.Holds(img)
      requires forall i :: 0 <= i < |t.seps| ==> Rep(pages, t.kids[i])
      requires Trim(t.kids[|t.seps|], cap).NoneLeft?
      modifies this`pages, p, p.slot, q.slot
      ensures Frame(old(pages), pages, {ppno, apno}) && pages.Keys == old(pages).Keys + {ppno, apno}
      ensures p.cnt == |t.seps| - 1 && p.slot[0].pno == t.kids[0].pno
      ensures TrimRep(pages, Trim(t, cap)) && TrimNote(pages, apno, q, itmno, img, Trim(t, cap))
    {
      ghost var pimg := ImageOf(t);
      var pn := q.slot[itmno + 1].pno;
      p.PutPageno(p.cnt, pn);
      ghost var pimg' := Image(pimg.ents, pimg.ptrs[|pimg.ents| := pn]);
      assert p.Holds(pimg');
      MoveUp(p, apno, q, itmno, true, pimg', img);
      ghost var mid := pages;
      p.cnt := p.cnt - 1;
      ghost var cut := TrimImage(pimg, NoneLeft);
      assert p.Holds(cut);
      WritePage(ppno, p, cut);
      assert p.slot[..][0].pno == cut.ptrs[0];
      TrimKidsFrame(old(pages), mid, t, apno);
      TrimAroundRep(mid, pages, t, NoneLeft, cap);
      assert TrimNote(mid, apno, q, itmno, img, Trim(t, cap));
    }

    /** Walk the last children below page ppno and take the last entry off, adjusting separator
        itmno of the page apno in buffer q. True means page ppno is not needed any more; then
        orphan is the page to take its place, if any. */
    method DelMax(ppno: nat, apno: nat, q: PageBuf, itmno: nat, ghost t: Tree, ghost img: Image)
      returns (rm: bool, orphan: nat)
      requires q.Holds(img) && itmno < q.cnt < q.slot.Length
      requires ppno != 0 ==>
        t.pno == ppno && WF(t, cap) && Holds(pages, t, pageCnt) && apno !in Pnos(t) && apno < pageCnt
      requires AllUnder(pages.Keys, pageCnt)
      modifies this`pages, q.slot
      ensures ppno == 0 ==> rm && orphan == 0 && pages == old(pages) && q.Holds(img)
      ensures AllUnder(pages.Keys, pageCnt)
      ensures ppno != 0 ==> Frame(old(pages), pages, Pnos(t) + {apno})
      ensures ppno != 0 ==>
        var res := Trim(t, cap);
        && (rm <==> !res.Trimmed?) && orphan == (if res.Lone? then res.u.pno else 0)
        && TrimRep(pages, res) && TrimNote(pages, apno, q, itmno, img, res)
      decreases t, ppno, 1
    {
      if ppno == 0 {
        rm, orphan := true, 0;
      } else {
        rm, orphan := DelMaxAt(ppno, apno, q, itmno, t, img);
      }
    }

    method DelMaxAt(ppno: nat, apno: nat, q: PageBuf, itmno: nat, ghost t: Tree, ghost img: Image)
      returns (rm: bool, orphan: nat)
      requires q.Holds(img) && itmno < q.cnt < q.slot.Length
      requires ppno != 0 && t.pno == ppno && WF(t, cap) && Holds(pages, t, pageCnt) && apno !in Pnos(t)
        && apno < pageCnt
      requires AllUnder(pages.Keys, pageCnt)
      modifies this`pages, q.slot
      ensures AllUnder(pages.Keys, pageCnt) && Frame(old(pages), pages, Pnos(t) + {apno})
      ensures var res := Trim(t, cap);
        && (rm <==> !res.Trimmed?) && orphan == (if res.Lone? then res.u.pno else 0)
        && TrimRep(pages, res) && TrimNote(pages, apno, q, itmno, img, res)
      decreases t, ppno, 0
    {
      RootWFShaped(t, cap);
      ImageFits(t, cap);
      assert t.pno in Pnos(t);
      var p := GetPage(ppno);
      PtrOf(t, cap, p.cnt);
      var pn := p.slot[p.cnt].pno;
      assert pn == p.slot[..][p.cnt].pno;
      if pn != 0 {
        HoldsKid(pages, t, pageCnt, |t.seps|);
      }
      rm, orphan := DelMax(pn, apno, q, itmno, if t.Leaf? then t else t.kids[|t.seps|], img);
      if pn == 0 {
        rm := TrimLeaf(p, ppno, apno, q, itmno, t, img);
      } else {
        DelMaxFrame(old(pages), pages, t, apno);
        if rm {
          rm, orphan := TrimNode(p, ppno, apno, q, itmno, orphan, t, img);
        } else {
          TrimQuiet(pages, t, cap);
        }
      }
    }

    /** The scan of btsrdel: the place of target and whether an entry compares equal there. */
    method DelScan(p: PageBuf, target: Slot, ghost t: Tree) returns (r: nat, found: bool)
      requires RootShaped(t, cap) && Rep(pages, t) && AllUnder(Pnos(t), pageCnt)
      requires p.Holds(ImageOf(t)) && p.slot.Length == cap + 1
      ensures r <= p.cnt && r == Pos(Bounds(t), Rec(target))
      ensures found <==> Hits(Bounds(t), r, Rec(target), false)
    {
      ghost var b, y := Bounds(t), Rec(target);
      var e := 1;
      r, found := 0, false;
      while e > 0 && r < p.cnt
        invariant r <= p.cnt == |b|
        invariant forall i :: 0 <= i < r ==> Less(b[i], y)
        invariant e <= 0 ==> r < p.cnt && !Less(b[r], y) && (found <==> b[r] == y)
        invariant e > 0 ==> !found
        decreases p.cnt - r, e
      {
        e := Compare(p, r, target, t);
        if e == 0 { found := true; }
        if e > 0 { r := r + 1; }
      }
      PosUnique(b, y, r);
    }

    /** Delete target below page pno. True in rm means page pno is not needed any more; then
        orphan is the page to take its place, if any. */
    method BtSrDel(pno: nat, target: Slot, ghost t: Tree) returns (rc: Code, rm: bool, orphan: nat)
      requires AllUnder(pages.Keys, pageCnt)
      requires pno != 0 ==> t.pno == pno && RootWF(t, cap) && Holds(pages, t, pageCnt) && Sorted(Flat(t))
      modifies this`pages
      ensures AllUnder(pages.Keys, pageCnt)
      ensures pno == 0 ==> rc == NTNDX && pages == old(pages)
      ensures pno != 0 ==> Frame(old(pages), pages, Pnos(t))
      ensures pno != 0 ==>
        var res := Del(t, Rec(target), cap);
        && rc == (if res == Missing then NTNDX else OK)
        && (rc == NTNDX ==> pages == old(pages))
        && (rc == OK ==> (rm <==> !res.Kept?) && orphan == (if res.Orphan? then res.u.pno else 0) && DelRep(pages, res))
      decreases t, pno, 1
    {
      if pno == 0 {
        rc, rm, orphan := NTNDX, false, 0;
      } else {
        rc, rm, orphan := BtSrDelAt(pno, target, t);
      }
    }

    method BtSrDelAt(pno: nat, target: Slot, ghost t: Tree) returns (rc: Code, rm: bool, orphan: nat)
      requires AllUnder(pages.Keys, pageCnt)
      requires pno != 0 && t.pno == pno && RootWF(t, cap) && Holds(pages, t, pageCnt) && Sorted(Flat(t))
      modifies this`pages
      ensures AllUnder(pages.Keys, pageCnt) && Frame(old(pages), pages, Pnos(t))
      ensures var res := Del(t, Rec(target), cap);
        && rc == (if res == Missing then NTNDX else OK)
        && (rc == NTNDX ==> pages == old(pages))
        && (rc == OK ==> (rm <==> !res.Kept?) && orphan == (if res.Orphan? then res.u.pno else 0) && DelRep(pages, res))
      decreases t, pno, 0
    {
      rm, orphan := false, 0;
      var p, r, found, pn3 := DelPlace(pno, target, t);
      rc := OK;
      if found {
        rm, orphan := DelMax(pn3, pno, p, r, if t.Leaf? then t else t.kids[r], ImageOf(t));
        if t.Node? {
          FoundFrame(old(pages), pages, t, r);
        }
        rm, orphan := DelFound(p, pno, r, rm, orphan, t, Rec(target));
      } else {
        rc, rm, orphan := BtSrDel(pn3, target, if t.Leaf? then t else t.kids[r]);
        if rc != OK {
          return;
        }
        KidsFrame(old(pages), pages, t, r, Pnos(t.kids[r]));
        rm, orphan := DelBelow(p, pno, r, rm, orphan, t, Rec(target));
      }
    }

    /** The page, the place of target in it, and the page below that place. */
    method DelPlace(pno: nat, target: Slot, ghost t: Tree) returns (p: PageBuf, r: nat, found: bool, pn3: nat)
      requires t.pno == pno && RootWF(t, cap) && Holds(pages, t, pageCnt) && Sorted(Flat(t))
      ensures fresh(p) && fresh(p.slot) && p.slot.Length == cap + 1 && p.Holds(ImageOf(t)) && p.cnt < p.slot.Length
      ensures r <= p.cnt && r == Pos(Bounds(t), Rec(target)) && pn3 == ImageOf(t).ptrs[r] && pno in Pnos(t)
      ensures found <==> Hits(Bounds(t), r, Rec(target), false)
      ensures if t.Leaf? then pn3 == 0 else
        && pn3 == t.kids[r].pno && pn3 != 0 && pno !in Pnos(t.kids[r]) && Pnos(t.kids[r]) <= Pnos(t)
        && WF(t.kids[r], cap) && Holds(pages, t.kids[r], pageCnt) && Sorted(Flat(t.kids[r]))
    {
      RootWFShaped(t, cap);
      ImageFits(t, cap);
      assert t.pno in Pnos(t);
      p := GetPage(pno);
      r, found := DelScan(p, target, t);
      PtrOf(t, cap, r);
      pn3 := p.slot[r].pno;
      assert pn3 == p.slot[..][r].pno;
      if t.Node? {
        HoldsKid(pages, t, pageCnt, r);
        ScanDescends(t, cap, Rec(target));
      }
    }

    /** The entry itself was at place r of this page: a leaf drops it, a non-leaf page has just
        had its child r trimmed. */
    method DelFound(p: PageBuf, pno: nat, r: nat, rm0: bool, orphan0: nat, ghost t: Tree, ghost x: Ent)
      returns (rm: bool, orphan: nat)
      requires RootWF(t, cap) && t.pno == pno && Apart(t) && AllUnder(pages.Keys, pageCnt) && pno < pageCnt
      requires p.slot.Length == cap + 1 && r < p.cnt < p.slot.Length
      requires r == Pos(Bounds(t), x) && Hits(Bounds(t), r, x, false)
      requires t.Leaf? ==> rm0 && orphan0 == 0 && p.Holds(ImageOf(t))
      requires t.Node? ==>
        var sub := Trim(t.kids[r], cap);
        && (forall i :: 0 <= i < |t.kids| && i != r ==> Rep(pages, t.kids[i]))
        && (rm0 <==> !sub.Trimmed?) && orphan0 == (if sub.Lone? then sub.u.pno else 0)
        && TrimRep(pages, sub) && TrimNote(pages, pno, p, r, ImageOf(t), sub)
      modifies this`pages, p, p.slot
      ensures AllUnder(pages.Keys, pageCnt) && Frame(old(pages), pages, {pno})
      ensures var res := Del(t, x, cap);
        && res != Missing && (rm <==> !res.Kept?) && orphan == (if res.Orphan? then res.u.pno else 0)
            && DelRep(pages, res)
    {
      ghost var sub := if t.Leaf? then NoneLeft else Trim(t.kids[r], cap);
      if t.Node? {
        TrimCorrect(t.kids[r], cap);
        PnosDrop(t.kids, r);
        TrimKeepsApart(t.kids[r], cap);
      }
      rm, orphan := DelFinish(p, pno, r, rm0, orphan0, t, if sub.NoneLeft? then t else RestOfTrim(sub),
                              if sub.NoneLeft? then ImageOf(t).ents else t.seps[r := sub.sep]);
      if t.Leaf? {
        LeafCut(t, r, x, cap);
      } else if sub.NoneLeft? {
        DropRep(old(pages), pages, t, r, cap);
      }
    }

    /** The entry was below child r, which came back as the deletion there left it. */
    method DelBelow(p: PageBuf, pno: nat, r: nat, rm0: bool, orphan0: nat, ghost t: Tree, ghost x: Ent)
      returns (rm: bool, orphan: nat)
      requires WF(t, cap) && t.Node? && t.pno == pno && Apart(t) && AllUnder(pages.Keys, pageCnt) && pno < pageCnt
      requires p.slot.Length == cap + 1 && p.Holds(ImageOf(t)) && pno in pages && pages[pno] == ImageOf(t)
      requires r == Pos(Bounds(t), x) && !Hits(Bounds(t), r, x, false) && Sorted(Flat(t.kids[r]))
      requires forall i :: 0 <= i < |t.kids| && i != r ==> Rep(pages, t.kids[i])
      requires var sub := Del(t.kids[r], x, cap);
        && sub != Missing && (rm0 <==> !sub.Kept?) && orphan0 == (if sub.Orphan? then sub.u.pno else 0)
            && DelRep(pages, sub)
      modifies this`pages, p, p.slot
      ensures AllUnder(pages.Keys, pageCnt) && Frame(old(pages), pages, {pno})
      ensures var res := Del(t, x, cap);
        && res != Missing && (rm <==> !res.Kept?) && orphan == (if res.Orphan? then res.u.pno else 0)
            && DelRep(pages, res)
    {
      ghost var sub := Del(t.kids[r], x, cap);
      DelKeepsWF(t.kids[r], x, cap);
      PnosDrop(t.kids, r);
      DelKeepsApart(t.kids[r], x, cap);
      rm, orphan := DelFinish(p, pno, r, rm0, orphan0, t, if sub == Gone then t else Rest(sub), t.seps);
      if sub == Gone {
        DropRep(old(pages), pages, t, r, cap);
      }
    }

    /** The end of btsrdel: hang in an orphan, or take out entry and child r, or nothing. */
    method DelFinish(p: PageBuf, pno: nat, r: nat, rm0: bool, orphan0: nat, ghost t: Tree, ghost u: Tree,
                     ghost ents: seq<Ent>)
      returns (rm: bool, orphan: nat)
      requires RootWF(t, cap) && t.pno == pno && Apart(t) && AllUnder(pages.Keys, pageCnt) && pno < pageCnt
      requires r <= |ImageOf(t).ents| == |ents| && 1 <= |ents| && p.slot.Length == cap + 1
        && p.Holds(Image(ents, ImageOf(t).ptrs))
      requires rm0 && orphan0 == 0 ==> ents == ImageOf(t).ents
      requires !(rm0 && orphan0 == 0) ==>
        && t.Node? && Apart(u) && Pnos(u) <= Pnos(t.kids[r]) && Rep(pages, u)
        && (forall i :: 0 <= i < |t.kids| && i != r ==> Rep(pages, t.kids[i]))
        && u.pno == (if rm0 then orphan0 else t.kids[r].pno)
        && (!rm0 ==> pno in pages && pages[pno] == Image(ents, ImageOf(t).ptrs))
      modifies this`pages, p, p.slot
      ensures AllUnder(pages.Keys, pageCnt) && Frame(old(pages), pages, {pno})
      ensures rm0 && orphan0 == 0 ==>
        var img := Narrowed(ImageOf(t), r);
        pages == old(pages)[pno := img] && (rm <==> |img.ents| == 0) && orphan == if rm then img.ptrs[0] else 0
      ensures !(rm0 && orphan0 == 0) ==> !rm && orphan == 0 && Rep(pages, Node(pno, t.kids[r := u], ents))
    {
      rm, orphan := false, 0;
      ghost var img := Image(ents, ImageOf(t).ptrs);
      if rm0 {
        if orphan0 != 0 {
          p.PutPageno(r, orphan0);
          WritePage(pno, p, Image(ents, img.ptrs[r := orphan0]));
          SwapRep(old(pages), pages, t, r, u, ents);
        } else {
          RemoveEntry(p, r, img);
          WritePage(pno, p, Narrowed(img, r));
          if p.cnt == 0 {
            assert p.slot[..][0].pno == Narrowed(img, r).ptrs[0];
            rm, orphan := true, p.slot[0].pno;
          }
        }
      } else {
        assert img.ptrs[r := u.pno] == img.ptrs;
        assert pages == pages[pno := img];
        SwapRep(pages, pages, t, r, u, ents);
      }
    }
  }

  /** A leaf without entry r shows what Remove leaves. */
  lemma LeafCut(t: Tree, r: nat, x: Ent, cap: nat)
    requires RootWF(t, cap) && t.Leaf? && Present(t.es, x) && r == Pos(t.es, x)
    ensures Narrowed(ImageOf(t), r) == ImageOf(Leaf(t.pno, Remove(t.es, x)))
  {
    assert Cut(ImageOf(t).ptrs, r) == seq(|t.es|, _ => 0);
  }

  lemma FoundFrame(pages: map<nat, Image>, pages': map<nat, Image>, t: Tree, r: nat)
    requires Rep(pages, t) && Apart(t) && t.Node? && r < |t.kids|
    requires Frame(pages, pages', Pnos(t.kids[r]) + {t.pno})
    ensures forall i :: 0 <= i < |t.kids| && i != r ==> Rep(pages', t.kids[i])
  {
    KidsFrame(pages, pages', t, r, Pnos(t.kids[r]) + {t.pno});
  }

  /** After the walk below the last child the other children and the page itself are as before. */
  lemma DelMaxFrame(pages: map<nat, Image>, pages': map<nat, Image>, t: Tree, apno: nat)
    requires Rep(pages, t) && Apart(t) && t.Node? && |t.kids| == |t.seps| + 1 && apno !in Pnos(t)
    requires Frame(pages, pages', Pnos(t.kids[|t.seps|]) + {apno})
    ensures forall i :: 0 <= i < |t.seps| ==> Rep(pages', t.kids[i])
    ensures t.pno in pages' && pages'[t.pno] == ImageOf(t)
  {
    PnosAt(t.kids, |t.seps|);
    KidsFrame(pages, pages', t, |t.seps|, Pnos(t.kids[|t.seps|]) + {apno});
  }

  /** The last child was trimmed in place: the page itself does not change. */
  lemma TrimQuiet(pages: map<nat, Image>, t: Tree, cap: nat)
    requires WF(t, cap) && t.Node? && Apart(t)
    requires Trim(t.kids[|t.seps|], cap).Trimmed? && TrimRep(pages, Trim(t.kids[|t.seps|], cap))
    requires t.pno in pages && pages[t.pno] == ImageOf(t)
    requires forall i :: 0 <= i < |t.seps| ==> Rep(pages, t.kids[i])
    ensures Trim(t, cap).Trimmed? && TrimRep(pages, Trim(t, cap))
    ensures Trim(t, cap).sep == Trim(t.kids[|t.seps|], cap).sep
  {
    assert pages == pages[t.pno := ImageOf(t)];
    TrimAroundRep(pages, pages, t, Trim(t.kids[|t.seps|], cap), cap);
  }

  lemma TrimKidsFrame(pages: map<nat, Image>, pages': map<nat, Image>, t: Tree, apno: nat)
    requires t.Node? && |t.kids| == |t.seps| + 1 && apno !in Pnos(t)
    requires forall i :: 0 <= i < |t.seps| ==> Rep(pages, t.kids[i])
    requires forall p :: p in pages && p != apno ==> p in pages' && pages'[p] == pages[p]
    ensures forall i :: 0 <= i < |t.seps| ==> Rep(pages', t.kids[i])
  {
    var touched := {apno};
    forall i | 0 <= i < |t.seps| ensures Rep(pages', t.kids[i]) {
      PnosKid(t.kids, i);
      RepFrame(pages, pages', t.kids[i], touched);
    }
  }

  lemma MovedUp(s: seq<Slot>, s': seq<Slot>, img: Image, itmno: nat, sep: Ent)
    requires ShowsEnts(s, img.ents) && ShowsPtrs(s, img.ptrs) && itmno < |img.ents| && |s'| == |s|
    requires forall j {:trigger s'[j]} :: 0 <= j < |img.ents| ==> Rec(s'[j]) == if j == itmno then sep else Rec(s[j])
    requires forall j {:trigger s'[j]} :: 0 <= j < |img.ptrs| ==> s'[j].pno == s[j].pno
    ensures ShowsEnts(s', img.ents[itmno := sep]) && ShowsPtrs(s', img.ptrs)
  {
  }
}
