/** The index tree as a mathematical object: what the pages of an index file add up to,
    and what insertion and deletion do to it. Class Index (module IndexFile) performs the
    same steps on page buffers and is proved to compute exactly these functions. */
module BTree {
  import opened Entries

  /** A page with its page number. A leaf holds entries. A non-leaf page holds |kids| - 1
      separators; a separator carries a key and a record number that is never read as an order. */
  datatype Tree =
    | Leaf(pno: nat, es: seq<Ent>)
    | Node(pno: nat, kids: seq<Tree>, seps: seq<Ent>)

  /** The entries of the leaves, left to right. */
  ghost function Flat(t: Tree): seq<Ent>
    decreases t, 1
  {
    match t
    case Leaf(_, es) => es
    case Node(_, kids, _) => FlatAll(kids)
  }

  ghost function FlatAll(ks: seq<Tree>): seq<Ent>
    decreases ks, 0
  {
    if ks == [] then [] else Flat(ks[0]) + FlatAll(ks[1..])
  }

  /** The rightmost leaf entry. */
  ghost function Last(t: Tree): Ent {
    match t
    case Leaf(_, es) => if es == [] then Ent(0, 0) else es[|es| - 1]
    case Node(_, kids, _) => if kids == [] then Ent(0, 0) else Last(kids[|kids| - 1])
  }

  /** Leaves that are neither empty nor too full, one child more than separators, and every
      separator's key equal to the last key of the subtree on its left. A page may have a single
      child and no separator: the fast builder leaves such pages, and a search passes them. */
  ghost predicate Shaped(t: Tree, cap: nat) {
    match t
    case Leaf(pno, es) =>
      0 < pno && 1 <= |es| <= cap && forall i :: 0 <= i < |es| ==> 0 < es[i].recno
    case Node(pno, kids, seps) =>
      0 < pno && |seps| <= cap && |kids| == |seps| + 1
      && (forall i :: 0 <= i < |kids| ==> Shaped(kids[i], cap))
      && (forall i :: 0 <= i < |seps| ==> seps[i].key == Last(kids[i]).key)
  }

  /** The shape that insertion and deletion keep: every page has an entry as well. */
  ghost predicate WF(t: Tree, cap: nat) {
    match t
    case Leaf(pno, es) =>
      0 < pno && 1 <= |es| <= cap && forall i :: 0 <= i < |es| ==> 0 < es[i].recno
    case Node(pno, kids, seps) =>
      0 < pno && 1 <= |seps| <= cap && |kids| == |seps| + 1
      && (forall i :: 0 <= i < |kids| ==> WF(kids[i], cap))
      && (forall i :: 0 <= i < |seps| ==> seps[i].key == Last(kids[i]).key)
  }

  ghost predicate Family(kids: seq<Tree>, seps: seq<Ent>, cap: nat) {
    && |kids| == |seps| + 1
    && (forall i :: 0 <= i < |kids| ==> WF(kids[i], cap))
    && (forall i :: 0 <= i < |seps| ==> seps[i].key == Last(kids[i]).key)
  }

  /** A root may also be a leaf page without entries: an index built over no keys has one. */
  ghost predicate RootWF(t: Tree, cap: nat) {
    WF(t, cap) || (t.Leaf? && t.es == [] && 0 < t.pno)
  }

  ghost predicate RootShaped(t: Tree, cap: nat) {
    Shaped(t, cap) || (t.Leaf? && t.es == [] && 0 < t.pno)
  }

  lemma {:induction false} WFShaped(t: Tree, cap: nat)
    requires WF(t, cap)
    ensures Shaped(t, cap)
    decreases t
  {
    if t.Node? {
      forall i | 0 <= i < |t.kids| ensures Shaped(t.kids[i], cap) { WFShaped(t.kids[i], cap); }
    }
  }

  lemma RootWFShaped(t: Tree, cap: nat)
    requires RootWF(t, cap)
    ensures RootShaped(t, cap)
  {
    if WF(t, cap) { WFShaped(t, cap); }
  }

  /** The entries a page is compared with: its own in a leaf, in a non-leaf page the last
      leaf entry of the subtree left of each separator. */
  ghost function Bounds(t: Tree): seq<Ent>
    requires t.Node? ==> |t.seps| <= |t.kids|
  {
    match t
    case Leaf(_, es) => es
    case Node(_, kids, seps) => seq(|seps|, i requires 0 <= i < |seps| => Last(kids[i]))
  }

  // ---------------------------------------------------------------- flattening

  lemma {:induction false} FlatAllConcat(a: seq<Tree>, b: seq<Tree>)
    ensures FlatAll(a + b) == FlatAll(a) + FlatAll(b)
  {
    if a == [] {
      assert a + b == b;
    } else {
      var all := a + b;
      assert all[0] == a[0] && all[1..] == a[1..] + b;
      FlatAllConcat(a[1..], b);
    }
  }

  lemma FlatAt(ks: seq<Tree>, r: nat)
    requires r < |ks|
    ensures FlatAll(ks) == FlatAll(ks[..r]) + Flat(ks[r]) + FlatAll(ks[r + 1..])
  {
    assert ks == ks[..r] + ks[r..];
    assert ks[r..][1..] == ks[r + 1..];
    FlatAllConcat(ks[..r], ks[r..]);
  }

  lemma FlatSingle(t: Tree)
    ensures FlatAll([t]) == Flat(t)
  {
    assert [t][1..] == [];
  }

  lemma {:induction false} LastIsFlatLast(t: Tree, cap: nat)
    requires Shaped(t, cap)
    ensures Flat(t) != [] && Last(t) == Flat(t)[|Flat(t)| - 1]
    ensures 0 < Last(t).recno
  {
    if t.Node? {
      var n := |t.kids| - 1;
      LastIsFlatLast(t.kids[n], cap);
      FlatAt(t.kids, n);
      assert t.kids[n + 1..] == [];
    }
  }

  /** The last entry of a run of subtrees is the last entry of the last of them. */
  lemma LastOfAll(ks: seq<Tree>, cap: nat)
    requires ks != [] && forall i :: 0 <= i < |ks| ==> Shaped(ks[i], cap)
    ensures FlatAll(ks) != []
    ensures FlatAll(ks)[|FlatAll(ks)| - 1] == Last(ks[|ks| - 1])
  {
    var n := |ks| - 1;
    LastIsFlatLast(ks[n], cap);
    FlatAt(ks, n);
    assert ks[n + 1..] == [];
  }

  /** All leaf entries carry a positive record number. */
  lemma {:induction false} RecnosPositive(t: Tree, cap: nat)
    requires Shaped(t, cap)
    ensures forall i :: 0 <= i < |Flat(t)| ==> 0 < Flat(t)[i].recno
    decreases t, 1
  {
    if t.Node? { RecnosPositiveAll(t.kids, cap); }
  }

  lemma {:induction false} RecnosPositiveAll(ks: seq<Tree>, cap: nat)
    requires forall i :: 0 <= i < |ks| ==> Shaped(ks[i], cap)
    ensures forall i :: 0 <= i < |FlatAll(ks)| ==> 0 < FlatAll(ks)[i].recno
    decreases ks, 0
  {
    if ks != [] {
      RecnosPositive(ks[0], cap);
      RecnosPositiveAll(ks[1..], cap);
    }
  }

  // ---------------------------------------------------------------- descent

  /** Descending into child r splits the leaf entries into those before x, those of the
      child, and those not before x. */
  ghost predicate Descends(kids: seq<Tree>, r: nat, x: Ent)
  {
    && r < |kids|
    && AllBelow(FlatAll(kids[..r]), x)
    && AllAbove(FlatAll(kids[r + 1..]), x)
  }

  lemma PrefixBelow(s: seq<Ent>, n: nat, x: Ent)
    requires Sorted(s) && n <= |s| && (n > 0 ==> Less(s[n - 1], x))
    ensures AllBelow(s[..n], x)
  {
    forall i | 0 <= i < n ensures Less(s[..n][i], x) {
      assert i < n - 1 ==> Less(s[i], s[n - 1]);
    }
  }

  lemma SuffixAbove(s: seq<Ent>, n: nat, x: Ent)
    requires Sorted(s) && 0 < n <= |s| && !Less(s[n - 1], x)
    ensures AllAbove(s[n..], x)
  {
    forall i | 0 <= i < |s| - n ensures Less(x, s[n..][i]) {
      assert Less(s[n - 1], s[n + i]);
    }
  }

  /** The three stretches of leaf entries: left of child r, child r, right of it. */
  lemma Stretches(ks: seq<Tree>, r: nat)
    requires r < |ks|
    ensures var s, n, m := FlatAll(ks), |FlatAll(ks[..r])|, |FlatAll(ks[..r])| + |Flat(ks[r])|;
            && m <= |s| && s[..n] == FlatAll(ks[..r])
            && s[n..m] == Flat(ks[r]) && s[m..] == FlatAll(ks[r + 1..])
  {
    FlatAt(ks, r);
  }

  lemma ScanBelow(t: Tree, cap: nat, x: Ent)
    requires Shaped(t, cap) && t.Node? && Sorted(Flat(t))
    ensures AllBelow(FlatAll(t.kids[..Pos(Bounds(t), x)]), x)
  {
    var r, ks, s := Pos(Bounds(t), x), t.kids, Flat(t);
    var n := |FlatAll(ks[..r])|;
    Stretches(ks, r);
    if r > 0 {
      LastOfAll(ks[..r], cap);
      assert Bounds(t)[r - 1] == Last(ks[r - 1]);
      assert s[n - 1] == s[..n][n - 1];
    }
    PrefixBelow(s, n, x);
  }

  lemma ScanAbove(t: Tree, cap: nat, x: Ent)
    requires Shaped(t, cap) && t.Node? && Sorted(Flat(t))
    ensures AllAbove(FlatAll(t.kids[Pos(Bounds(t), x) + 1..]), x)
  {
    var r, ks, s := Pos(Bounds(t), x), t.kids, Flat(t);
    if r < |t.seps| {
      var n, m := |FlatAll(ks[..r])|, |FlatAll(ks[..r])| + |Flat(ks[r])|;
      Stretches(ks, r);
      LastIsFlatLast(ks[r], cap);
      assert Bounds(t)[r] == Last(ks[r]);
      assert s[m - 1] == s[n..m][m - n - 1];
      SuffixAbove(s, m, x);
    } else {
      assert ks[r + 1..] == [];
    }
  }

  /** The child at the position where the scan stops holds x's place in the order. */
  lemma ScanDescends(t: Tree, cap: nat, x: Ent)
    requires Shaped(t, cap) && t.Node? && Sorted(Flat(t))
    ensures Descends(t.kids, Pos(Bounds(t), x), x)
    ensures Sorted(Flat(t.kids[Pos(Bounds(t), x)]))
  {
    ScanBelow(t, cap, x);
    ScanAbove(t, cap, x);
    Stretches(t.kids, Pos(Bounds(t), x));
  }

  // ---------------------------------------------------------------- insertion

  datatype InsResult =
    | Duplicate
    | Invalid                                                 // insert_entry rejects the entry
    | Done(t: Tree, next: nat)
    | Split(left: Tree, up: Ent, right: Tree, next: nat)      // pages allocated so far: next

  /** The entry a scan looks for: with UNIQUE on only the key decides. */
  function Probe(x: Ent, unique: bool): Ent {
    if unique then Ent(x.key, 0) else x
  }

  predicate Hits(bounds: seq<Ent>, r: nat, x: Ent, unique: bool) {
    r < |bounds| && if unique then bounds[r].key == x.key else bounds[r] == x
  }

  ghost function Ins(t: Tree, x: Ent, unique: bool, cap: nat, pagecnt: nat): InsResult
    requires RootWF(t, cap) && 2 <= cap
    decreases t
  {
    var r := Pos(Bounds(t), Probe(x, unique));
    if Hits(Bounds(t), r, x, unique) then Duplicate
    else match t
      case Leaf(pno, es) => InsLeaf(pno, es[..r] + [x] + es[r..], cap, pagecnt)
      case Node(pno, kids, seps) =>
        InsAround(pno, kids, seps, r, Ins(kids[r], x, unique, cap, pagecnt), cap)
  }

  /** What a non-leaf page makes of the result for its child r. A child that split sends up a
      separator; insert_entry refuses one without record number when it lands in the fresh page. */
  ghost function InsAround(pno: nat, kids: seq<Tree>, seps: seq<Ent>, r: nat, sub: InsResult, cap: nat): InsResult
    requires 2 <= cap && 1 <= |seps| <= cap && |kids| == |seps| + 1 && r <= |seps|
  {
    match sub
    case Duplicate => Duplicate
    case Invalid => Invalid
    case Done(k, next) => Done(Node(pno, kids[r := k], seps), next)
    case Split(l, up, q, next) =>
      if r > cap / 2 && |seps| == cap && up.recno == 0 then Invalid
      else InsNode(pno, kids[..r] + [l, q] + kids[r + 1..], seps[..r] + [up] + seps[r..], cap, next)
  }

  /** Write back the entries of a leaf that has just grown by one, splitting it when too long. */
  ghost function InsLeaf(pno: nat, es: seq<Ent>, cap: nat, pagecnt: nat): InsResult
    requires 2 <= cap && 1 <= |es| <= cap + 1
  {
    var n := cap / 2;
    if |es| <= cap then Done(Leaf(pno, es), pagecnt)
    else Split(Leaf(pno, es[..n + 1]), es[n], Leaf(pagecnt, es[n + 1..]), pagecnt + 1)
  }

  /** The same for a non-leaf page: the middle separator moves up. */
  ghost function InsNode(pno: nat, kids: seq<Tree>, seps: seq<Ent>, cap: nat, pagecnt: nat): InsResult
    requires 2 <= cap && 1 <= |seps| <= cap + 1 && |kids| == |seps| + 1
  {
    var n := cap / 2;
    if |seps| <= cap then Done(Node(pno, kids, seps), pagecnt)
    else Split(Node(pno, kids[..n + 1], seps[..n]), seps[n],
               Node(pagecnt, kids[n + 1..], seps[n + 1..]), pagecnt + 1)
  }

  /** The leaf entries of the one or two trees an insertion leaves behind. */
  ghost function ResultFlat(res: InsResult): seq<Ent> {
    match res
    case Done(t, _) => Flat(t)
    case Split(l, _, r, _) => Flat(l) + Flat(r)
    case _ => []
  }

  lemma InsNodeFlat(pno: nat, kids: seq<Tree>, seps: seq<Ent>, cap: nat, pagecnt: nat)
    requires 2 <= cap && 1 <= |seps| <= cap + 1 && |kids| == |seps| + 1
    ensures ResultFlat(InsNode(pno, kids, seps, cap, pagecnt)) == FlatAll(kids)
  {
    if |seps| > cap {
      var n := cap / 2;
      FlatAllConcat(kids[..n + 1], kids[n + 1..]);
      assert kids == kids[..n + 1] + kids[n + 1..];
    }
  }

  /** Replacing child r by trees ks changes exactly that stretch of the leaf entries. */
  lemma FlatReplace(kids: seq<Tree>, r: nat, ks: seq<Tree>)
    requires r < |kids|
    ensures FlatAll(kids[..r] + ks + kids[r + 1..]) == FlatAll(kids[..r]) + FlatAll(ks) + FlatAll(kids[r + 1..])
  {
    FlatAllConcat(kids[..r] + ks, kids[r + 1..]);
    FlatAllConcat(kids[..r], ks);
  }

  lemma FlatReplaceOne(kids: seq<Tree>, r: nat, k: Tree)
    requires r < |kids|
    ensures FlatAll(kids[r := k]) == FlatAll(kids[..r]) + Flat(k) + FlatAll(kids[r + 1..])
  {
    FlatReplace(kids, r, [k]);
    FlatSingle(k);
    assert kids[r := k] == kids[..r] + [k] + kids[r + 1..];
  }

  lemma FlatPair(a: Tree, b: Tree)
    ensures FlatAll([a, b]) == Flat(a) + Flat(b)
  {
    assert [a, b] == [a] + [b];
    FlatAllConcat([a], [b]);
    FlatSingle(a);
    FlatSingle(b);
  }

  /** Under UNIQUE a place found by key alone is also the place of the whole entry. */
  lemma ProbePlace(b: seq<Ent>, x: Ent, unique: bool)
    requires !Hits(b, Pos(b, Probe(x, unique)), x, unique)
    requires Sorted(b)
    ensures Pos(b, x) == Pos(b, Probe(x, unique))
  {
    PosUnique(b, x, Pos(b, Probe(x, unique)));
  }

  ghost predicate Taken(s: seq<Ent>, x: Ent, unique: bool) {
    if unique then KeyPresent(s, x.key) else x in s
  }

  /** What an insertion of x into leaf entries s has to deliver. */
  ghost predicate Delivers(res: InsResult, s: seq<Ent>, x: Ent, unique: bool) {
    && (res == Duplicate <==> Taken(s, x, unique))
    && (res.Done? || res.Split? ==> ResultFlat(res) == InsertSorted(s, x))
  }

  /** An insertion is refused as a duplicate exactly when the entry (with UNIQUE on: its key)
      is already there; otherwise the leaf entries are the old ones with x at its place. */
  lemma {:induction false} InsCorrect(t: Tree, x: Ent, unique: bool, cap: nat, pagecnt: nat)
    requires RootWF(t, cap) && 2 <= cap && Sorted(Flat(t)) && 0 < x.recno
    ensures Delivers(Ins(t, x, unique, cap, pagecnt), Flat(t), x, unique)
    decreases t
  {
    if t.Leaf? {
      InsLeafCorrect(t, x, unique, cap, pagecnt);
    } else {
      var r := Pos(Bounds(t), Probe(x, unique));
      WFShaped(t, cap);
      ScanDescends(t, cap, Probe(x, unique));
      if Hits(Bounds(t), r, x, unique) {
        WFShaped(t.kids[r], cap);
        LastIsFlatLast(t.kids[r], cap);
        FlatAt(t.kids, r);
        TakenMid(FlatAll(t.kids[..r]), Flat(t.kids[r]), FlatAll(t.kids[r + 1..]), x, unique);
      } else {
        InsCorrect(t.kids[r], x, unique, cap, pagecnt);
        InsNodeCorrect(t, x, unique, cap, pagecnt);
      }
    }
  }

  lemma InsLeafCorrect(t: Tree, x: Ent, unique: bool, cap: nat, pagecnt: nat)
    requires RootWF(t, cap) && t.Leaf? && 2 <= cap && Sorted(t.es)
    ensures Delivers(Ins(t, x, unique, cap, pagecnt), Flat(t), x, unique)
  {
    var r := Pos(t.es, Probe(x, unique));
    if Hits(t.es, r, x, unique) {
      assert t.es[r] in t.es;
    } else {
      ProbePlace(t.es, x, unique);
      NotTaken(t.es, x, unique);
      LeafFlat(t.pno, t.es[..r] + [x] + t.es[r..], cap, pagecnt);
    }
  }

  lemma InsNodeCorrect(t: Tree, x: Ent, unique: bool, cap: nat, pagecnt: nat)
    requires WF(t, cap) && t.Node? && 2 <= cap && Sorted(Flat(t))
    requires var r := Pos(Bounds(t), Probe(x, unique));
             && !Hits(Bounds(t), r, x, unique)
             && Delivers(Ins(t.kids[r], x, unique, cap, pagecnt), Flat(t.kids[r]), x, unique)
    ensures Delivers(Ins(t, x, unique, cap, pagecnt), Flat(t), x, unique)
  {
    var r := Pos(Bounds(t), Probe(x, unique));
    var a, b, c := FlatAll(t.kids[..r]), Flat(t.kids[r]), FlatAll(t.kids[r + 1..]);
    FlatAt(t.kids, r);
    if Ins(t.kids[r], x, unique, cap, pagecnt) == Duplicate {
      TakenMid(a, b, c, x, unique);
    } else {
      StrictDescent(t, cap, x, unique);
      NotTakenMid(a, b, c, x, unique);
      InsertMid(a, b, c, x);
      InsAroundFlat(t.pno, t.kids, t.seps, r, Ins(t.kids[r], x, unique, cap, pagecnt), cap);
    }
  }

  /** A non-leaf page leaves the entries left and right of child r as they are. */
  lemma InsAroundFlat(pno: nat, kids: seq<Tree>, seps: seq<Ent>, r: nat, sub: InsResult, cap: nat)
    requires 2 <= cap && 1 <= |seps| <= cap && |kids| == |seps| + 1 && r <= |seps|
    ensures var res := InsAround(pno, kids, seps, r, sub, cap);
            && (res == Duplicate <==> sub == Duplicate)
            && (res.Done? || res.Split? ==>
                 && (sub.Done? || sub.Split?)
                 && ResultFlat(res) == FlatAll(kids[..r]) + ResultFlat(sub) + FlatAll(kids[r + 1..]))
  {
    if sub.Done? {
      FlatReplaceOne(kids, r, sub.t);
    } else if sub.Split? {
      InsNodeSplitFlat(pno, kids, seps, r, sub, cap);
    }
  }

  lemma InsNodeSplitFlat(pno: nat, kids: seq<Tree>, seps: seq<Ent>, r: nat, sub: InsResult, cap: nat)
    requires 2 <= cap && |seps| <= cap && |kids| == |seps| + 1 && r <= |seps| && sub.Split?
    ensures ResultFlat(InsNode(pno, kids[..r] + [sub.left, sub.right] + kids[r + 1..],
                               seps[..r] + [sub.up] + seps[r..], cap, sub.next))
            == FlatAll(kids[..r]) + ResultFlat(sub) + FlatAll(kids[r + 1..])
  {
    FlatReplace(kids, r, [sub.left, sub.right]);
    FlatPair(sub.left, sub.right);
    InsNodeFlat(pno, kids[..r] + [sub.left, sub.right] + kids[r + 1..],
                seps[..r] + [sub.up] + seps[r..], cap, sub.next);
  }

  lemma LeafFlat(pno: nat, es: seq<Ent>, cap: nat, pagecnt: nat)
    requires 2 <= cap && 1 <= |es| <= cap + 1
    ensures ResultFlat(InsLeaf(pno, es, cap, pagecnt)) == es
  {
    if |es| > cap {
      assert es[..cap / 2 + 1] + es[cap / 2 + 1..] == es;
    }
  }

  lemma NotTaken(s: seq<Ent>, x: Ent, unique: bool)
    requires Sorted(s) && !Hits(s, Pos(s, Probe(x, unique)), x, unique)
    requires unique ==> forall i :: 0 <= i < |s| ==> 0 < s[i].recno
    ensures !Taken(s, x, unique)
  {
    var k := Pos(s, Probe(x, unique));
    forall i | 0 <= i < |s| ensures if unique then s[i].key != x.key else s[i] != x {
      if i > k { assert Less(s[k], s[i]); }
    }
  }

  lemma TakenMid(a: seq<Ent>, b: seq<Ent>, c: seq<Ent>, x: Ent, unique: bool)
    requires Taken(b, x, unique)
    ensures Taken(a + b + c, x, unique)
  {
    var i :| 0 <= i < |b| && if unique then b[i].key == x.key else b[i] == x;
    assert (a + b + c)[|a| + i] == b[i];
  }

  /** Nothing outside the child equals x when the scan stopped without a hit. */
  lemma StrictDescent(t: Tree, cap: nat, x: Ent, unique: bool)
    requires WF(t, cap) && t.Node? && Sorted(Flat(t))
    requires !Hits(Bounds(t), Pos(Bounds(t), Probe(x, unique)), x, unique)
    ensures var r := Pos(Bounds(t), Probe(x, unique));
            && r < |t.kids|
            && Descends(t.kids, r, x)
            && (unique ==> !KeyPresent(FlatAll(t.kids[..r]), x.key) && !KeyPresent(FlatAll(t.kids[r + 1..]), x.key))
  {
    var y := Probe(x, unique);
    var r := Pos(Bounds(t), y);
    WFShaped(t, cap);
    ScanDescends(t, cap, y);
    var a, c := FlatAll(t.kids[..r]), FlatAll(t.kids[r + 1..]);
    if unique && r < |t.seps| {
      FlatAt(t.kids, r);
      WFShaped(t.kids[r], cap);
      LastIsFlatLast(t.kids[r], cap);
      var s, m := Flat(t), |a| + |Flat(t.kids[r])| - 1;
      assert s[m] == Last(t.kids[r]) == Bounds(t)[r];
      forall i | 0 <= i < |c| ensures x.key < c[i].key {
        assert c[i] == s[m + 1 + i] && Less(s[m], s[m + 1 + i]);
      }
    }
  }

  lemma NotTakenMid(a: seq<Ent>, b: seq<Ent>, c: seq<Ent>, x: Ent, unique: bool)
    requires AllBelow(a, x) && AllAbove(c, x) && !Taken(b, x, unique)
    requires unique ==> !KeyPresent(a, x.key) && !KeyPresent(c, x.key)
    ensures !Taken(a + b + c, x, unique)
  {
    var s := a + b + c;
    forall i | 0 <= i < |s| ensures if unique then s[i].key != x.key else s[i] != x {
      if i < |a| { assert s[i] == a[i]; }
      else if i < |a| + |b| { assert s[i] == b[i - |a|]; }
      else { assert s[i] == c[i - |a| - |b|]; }
    }
  }

  // ---------------------------------------------------------------- insertion keeps the shape

  ghost predicate ResultWF(res: InsResult, cap: nat) {
    match res
    case Done(t, next) => WF(t, cap)
    case Split(l, up, r, next) => WF(l, cap) && WF(r, cap) && up.key == Last(l).key
    case _ => true
  }

  ghost function ResultLast(res: InsResult): Ent
    requires res.Done? || res.Split?
  {
    if res.Done? then Last(res.t) else Last(res.right)
  }

  lemma InsertKeepsLast(s: seq<Ent>, x: Ent)
    requires s != [] && Less(x, s[|s| - 1])
    ensures InsertSorted(s, x)[|s|] == s[|s| - 1]
  {
  }

  /** Pages, separators and capacity stay in order, and a page that splits sends up the last
      key of its left half. */
  lemma {:induction false} InsKeepsWF(t: Tree, x: Ent, unique: bool, cap: nat, pagecnt: nat)
    requires RootWF(t, cap) && 2 <= cap && Sorted(Flat(t)) && 0 < x.recno && 0 < pagecnt
    ensures ResultWF(Ins(t, x, unique, cap, pagecnt), cap)
    decreases t
  {
    var r := Pos(Bounds(t), Probe(x, unique));
    if t.Leaf? {
      InsLeafWF(t.pno, t.es[..r] + [x] + t.es[r..], cap, pagecnt);
    } else if !Hits(Bounds(t), r, x, unique) {
      var sub := Ins(t.kids[r], x, unique, cap, pagecnt);
      WFShaped(t, cap);
      ScanDescends(t, cap, Probe(x, unique));
      InsKeepsWF(t.kids[r], x, unique, cap, pagecnt);
      InsNext(t.kids[r], x, unique, cap, pagecnt);
      if sub.Done? || sub.Split? {
        InsLast(t, x, unique, cap, pagecnt);
        InsAroundWF(t.pno, t.kids, t.seps, r, sub, cap);
      }
    }
  }

  lemma InsLeafWF(pno: nat, es: seq<Ent>, cap: nat, pagecnt: nat)
    requires 2 <= cap && 1 <= |es| <= cap + 1 && 0 < pno && 0 < pagecnt
    requires forall i :: 0 <= i < |es| ==> 0 < es[i].recno
    ensures ResultWF(InsLeaf(pno, es, cap, pagecnt), cap)
  {
  }

  lemma {:induction false} InsNext(t: Tree, x: Ent, unique: bool, cap: nat, pagecnt: nat)
    requires RootWF(t, cap) && 2 <= cap
    ensures var res := Ins(t, x, unique, cap, pagecnt);
            && (res.Done? ==> pagecnt <= res.next)
            && (res.Split? ==> pagecnt < res.next && res.right.pno == res.next - 1)
    decreases t
  {
    var r := Pos(Bounds(t), Probe(x, unique));
    if t.Node? && !Hits(Bounds(t), r, x, unique) {
      InsNext(t.kids[r], x, unique, cap, pagecnt);
    }
  }

  /** Left of a separator the subtree keeps its last entry. */
  lemma InsLast(t: Tree, x: Ent, unique: bool, cap: nat, pagecnt: nat)
    requires WF(t, cap) && t.Node? && 2 <= cap && Sorted(Flat(t)) && 0 < x.recno && 0 < pagecnt
    requires var r := Pos(Bounds(t), Probe(x, unique));
             var sub := Ins(t.kids[r], x, unique, cap, pagecnt);
             !Hits(Bounds(t), r, x, unique) && (sub.Done? || sub.Split?) && ResultWF(sub, cap)
    ensures var r := Pos(Bounds(t), Probe(x, unique));
            r < |t.seps| ==> ResultLast(Ins(t.kids[r], x, unique, cap, pagecnt)) == Last(t.kids[r])
  {
    var r := Pos(Bounds(t), Probe(x, unique));
    if r < |t.seps| {
      var k := t.kids[r];
      var sub := Ins(k, x, unique, cap, pagecnt);
      WFShaped(t, cap);
      ScanDescends(t, cap, Probe(x, unique));
      InsCorrect(k, x, unique, cap, pagecnt);
      WFShaped(k, cap);
      LastIsFlatLast(k, cap);
      DeliveredLast(sub, Flat(k), x, cap);
    }
  }

  /** An insertion in front of the last leaf entry keeps it the last one. */
  lemma DeliveredLast(sub: InsResult, s: seq<Ent>, x: Ent, cap: nat)
    requires (sub.Done? || sub.Split?) && ResultWF(sub, cap) && ResultFlat(sub) == InsertSorted(s, x)
    requires s != [] && Less(x, s[|s| - 1])
    ensures ResultLast(sub) == s[|s| - 1]
  {
    InsertKeepsLast(s, x);
    WFShaped(if sub.Done? then sub.t else sub.right, cap);
    LastIsFlatLast(if sub.Done? then sub.t else sub.right, cap);
  }

  /** A family of children with child r replaced by what its insertion left. */
  lemma FamilySplit(kids: seq<Tree>, seps: seq<Ent>, cap: nat, r: nat, l: Tree, up: Ent, q: Tree)
    requires Family(kids, seps, cap) && r <= |seps|
    requires WF(l, cap) && WF(q, cap) && up.key == Last(l).key
    requires r < |seps| ==> Last(q) == Last(kids[r])
    ensures Family(kids[..r] + [l, q] + kids[r + 1..], seps[..r] + [up] + seps[r..], cap)
  {
    var ks, ss := kids[..r] + [l, q] + kids[r + 1..], seps[..r] + [up] + seps[r..];
    forall i | 0 <= i < |ks| ensures WF(ks[i], cap) {
      assert i < r ==> ks[i] == kids[i];
      assert i > r + 1 ==> ks[i] == kids[i - 1];
    }
    forall i | 0 <= i < |ss| ensures ss[i].key == Last(ks[i]).key {
      if i < r { assert ss[i] == seps[i] && ks[i] == kids[i]; }
      else if i > r { assert ss[i] == seps[i - 1] && (i > r + 1 ==> ks[i] == kids[i - 1]); }
    }
  }

  lemma InsAroundWF(pno: nat, kids: seq<Tree>, seps: seq<Ent>, r: nat, sub: InsResult, cap: nat)
    requires 2 <= cap && 1 <= |seps| <= cap && Family(kids, seps, cap) && r <= |seps| && 0 < pno
    requires ResultWF(sub, cap) && (sub.Done? || sub.Split?) && 0 < sub.next
    requires r < |seps| ==> ResultLast(sub) == Last(kids[r])
    ensures ResultWF(InsAround(pno, kids, seps, r, sub, cap), cap)
  {
    if sub.Split? {
      var ks, ss := kids[..r] + [sub.left, sub.right] + kids[r + 1..], seps[..r] + [sub.up] + seps[r..];
      FamilySplit(kids, seps, cap, r, sub.left, sub.up, sub.right);
      InsNodeWF(pno, ks, ss, cap, sub.next);
    }
  }

  lemma InsNodeWF(pno: nat, kids: seq<Tree>, seps: seq<Ent>, cap: nat, pagecnt: nat)
    requires 2 <= cap && 1 <= |seps| <= cap + 1 && Family(kids, seps, cap) && 0 < pno && 0 < pagecnt
    ensures ResultWF(InsNode(pno, kids, seps, cap, pagecnt), cap)
  {
    if |seps| > cap {
      var n := cap / 2;
      assert Family(kids[..n + 1], seps[..n], cap);
      assert Family(kids[n + 1..], seps[n + 1..], cap);
    }
  }

  // ---------------------------------------------------------------- the refused entry

  /** The record number an overflowing page sends up with its separator, None when it does
      not overflow. A leaf sends that of a leaf entry, a non-leaf page whatever its separator
      carries. */
  datatype Rise = NoRise | Up(recno: nat)

  ghost function RiseOf(t: Tree, x: Ent, unique: bool, cap: nat): Rise
    requires RootWF(t, cap) && 2 <= cap
    decreases t
  {
    var r, n := Pos(Bounds(t), Probe(x, unique)), cap / 2;
    match t
    case Leaf(_, es) => if |es| < cap then NoRise else Up((es[..r] + [x] + es[r..])[n].recno)
    case Node(_, kids, seps) => RiseThrough(seps, r, RiseOf(kids[r], x, unique, cap), cap)
  }

  ghost function RiseThrough(seps: seq<Ent>, r: nat, below: Rise, cap: nat): Rise
    requires 2 <= cap && |seps| <= cap
  {
    var n := cap / 2;
    if |seps| < cap || below.NoRise? then NoRise
    else if r == n then below
    else Up(seps[if r < n then n - 1 else n].recno)
  }

  /** On the way down to x's place some full non-leaf page, entered right of its middle,
      receives a separator with record number 0 from below. */
  ghost predicate Meets0(t: Tree, x: Ent, unique: bool, cap: nat)
    requires RootWF(t, cap) && 2 <= cap
    decreases t
  {
    var r := Pos(Bounds(t), Probe(x, unique));
    t.Node? && !Hits(Bounds(t), r, x, unique)
    && (Meets0(t.kids[r], x, unique, cap)
        || (|t.seps| == cap && r > cap / 2 && RiseOf(t.kids[r], x, unique, cap) == Up(0)))
  }

  /** Exactly when an insertion that is not a duplicate is refused with INVALID_ENTRY. */
  lemma {:induction false} InvalidExactly(t: Tree, x: Ent, unique: bool, cap: nat, pagecnt: nat)
    requires RootWF(t, cap) && 2 <= cap
    ensures var res := Ins(t, x, unique, cap, pagecnt);
            && (res != Duplicate ==> (res == Invalid <==> Meets0(t, x, unique, cap)))
            && (res.Split? ==> RiseOf(t, x, unique, cap) == Up(res.up.recno))
            && (res.Done? ==> RiseOf(t, x, unique, cap) == NoRise)
    decreases t
  {
    var r := Pos(Bounds(t), Probe(x, unique));
    if t.Leaf? {
    } else if !Hits(Bounds(t), r, x, unique) {
      InvalidExactly(t.kids[r], x, unique, cap, pagecnt);
      RiseAround(t.pno, t.kids, t.seps, r, Ins(t.kids[r], x, unique, cap, pagecnt), cap,
                 RiseOf(t.kids[r], x, unique, cap));
    }
  }

  lemma RiseAround(pno: nat, kids: seq<Tree>, seps: seq<Ent>, r: nat, sub: InsResult, cap: nat, below: Rise)
    requires 2 <= cap && 1 <= |seps| <= cap && |kids| == |seps| + 1 && r <= |seps|
    requires sub.Split? ==> below == Up(sub.up.recno)
    requires sub.Done? ==> below == NoRise
    ensures var res := InsAround(pno, kids, seps, r, sub, cap);
            && (res == Duplicate <==> sub == Duplicate)
            && (sub.Done? || sub.Split? ==>
                 (res == Invalid <==> (|seps| == cap && r > cap / 2 && below == Up(0))))
            && (sub == Invalid ==> res == Invalid)
            && (res.Done? ==> RiseThrough(seps, r, below, cap) == NoRise)
            && (res.Split? ==> RiseThrough(seps, r, below, cap) == Up(res.up.recno))
  {
  }

  /** No separator carries record number 0: true of every tree grown by insertion alone. */
  ghost predicate SepsNumbered(t: Tree) {
    t.Node? ==>
      && (forall i :: 0 <= i < |t.seps| ==> 0 < t.seps[i].recno)
      && (forall i :: 0 <= i < |t.kids| ==> SepsNumbered(t.kids[i]))
  }

  ghost predicate ResultNumbered(res: InsResult) {
    match res
    case Duplicate => true
    case Invalid => false
    case Done(t, _) => SepsNumbered(t)
    case Split(l, up, r, _) => SepsNumbered(l) && SepsNumbered(r) && 0 < up.recno
  }

  /** In a tree grown by insertion alone no insertion is refused, and the tree stays so. */
  lemma {:induction false} NumberedNeverInvalid(t: Tree, x: Ent, unique: bool, cap: nat, pagecnt: nat)
    requires RootWF(t, cap) && 2 <= cap && SepsNumbered(t) && 0 < x.recno
    ensures ResultNumbered(Ins(t, x, unique, cap, pagecnt))
    decreases t
  {
    var r := Pos(Bounds(t), Probe(x, unique));
    if t.Node? && !Hits(Bounds(t), r, x, unique) {
      NumberedNeverInvalid(t.kids[r], x, unique, cap, pagecnt);
      NumberedAround(t.pno, t.kids, t.seps, r, Ins(t.kids[r], x, unique, cap, pagecnt), cap);
    }
  }

  lemma NumberedAround(pno: nat, kids: seq<Tree>, seps: seq<Ent>, r: nat, sub: InsResult, cap: nat)
    requires 2 <= cap && 1 <= |seps| <= cap && |kids| == |seps| + 1 && r <= |seps|
    requires SepsNumbered(Node(pno, kids, seps)) && ResultNumbered(sub)
    ensures ResultNumbered(InsAround(pno, kids, seps, r, sub, cap))
  {
  }

  // ---------------------------------------------------------------- page numbers

  ghost function Pnos(t: Tree): set<nat>
    decreases t, 1
  {
    match t
    case Leaf(pno, _) => {pno}
    case Node(pno, kids, _) => {pno} + PnosAll(kids)
  }

  ghost function PnosAll(ks: seq<Tree>): set<nat>
    decreases ks, 0
  {
    if ks == [] then {} else Pnos(ks[0]) + PnosAll(ks[1..])
  }

  /** No page is shared: neither between two children nor by a page and a page below it. */
  ghost predicate Apart(t: Tree)
    decreases t, 1
  {
    t.Node? ==> t.pno !in PnosAll(t.kids) && ApartAll(t.kids)
  }

  ghost predicate ApartAll(ks: seq<Tree>)
    decreases ks, 0
  {
    ks != [] ==> Apart(ks[0]) && ApartAll(ks[1..]) && Pnos(ks[0]) !! PnosAll(ks[1..])
  }

  lemma PnosConcat(a: seq<Tree>, b: seq<Tree>)
    ensures PnosAll(a + b) == PnosAll(a) + PnosAll(b)
    ensures ApartAll(a + b) <==> ApartAll(a) && ApartAll(b) && PnosAll(a) !! PnosAll(b)
  {
    if a == [] {
      assert a + b == b;
    } else {
      PnosConcat(a[1..], b);
      assert (a + b)[1..] == a[1..] + b;
    }
  }

  lemma PnosAt(ks: seq<Tree>, r: nat)
    requires r < |ks|
    ensures PnosAll(ks) == PnosAll(ks[..r]) + Pnos(ks[r]) + PnosAll(ks[r + 1..])
    ensures ApartAll(ks) <==> (ApartAll(ks[..r]) && Apart(ks[r]) && ApartAll(ks[r + 1..])
                               && PnosAll(ks[..r]) !! Pnos(ks[r]) && PnosAll(ks[..r]) !! PnosAll(ks[r + 1..])
                               && Pnos(ks[r]) !! PnosAll(ks[r + 1..]))
  {
    PnosConcat(ks[..r], ks[r..]);
    assert ks == ks[..r] + ks[r..];
    assert ks[r..][1..] == ks[r + 1..];
  }

  /** Everything in a is in base or was allocated between lo and hi. */
  ghost predicate Grown(a: set<nat>, base: set<nat>, lo: nat, hi: nat) {
    lo <= hi && forall p :: p in a ==> p in base || lo <= p < hi
  }

  ghost predicate AllUnder(a: set<nat>, n: nat) {
    forall p :: p in a ==> p < n
  }

  ghost predicate ResultApart(res: InsResult, t: Tree, pagecnt: nat) {
    match res
    case Done(u, next) => Apart(u) && u.pno == t.pno && Grown(Pnos(u), Pnos(t), pagecnt, next)
    case Split(l, _, r, next) =>
      && Apart(l) && Apart(r) && Pnos(l) !! Pnos(r) && l.pno == t.pno
      && Grown(Pnos(l) + Pnos(r), Pnos(t), pagecnt, next)
    case _ => true
  }

  /** New pages come from past the end of the file only, and no page gets shared. */
  lemma {:induction false} InsKeepsApart(t: Tree, x: Ent, unique: bool, cap: nat, pagecnt: nat)
    requires RootWF(t, cap) && 2 <= cap && Apart(t) && AllUnder(Pnos(t), pagecnt)
    ensures ResultApart(Ins(t, x, unique, cap, pagecnt), t, pagecnt)
    decreases t
  {
    var r := Pos(Bounds(t), Probe(x, unique));
    if t.Node? && !Hits(Bounds(t), r, x, unique) {
      PnosAt(t.kids, r);
      InsKeepsApart(t.kids[r], x, unique, cap, pagecnt);
      InsAroundApart(t, r, Ins(t.kids[r], x, unique, cap, pagecnt), cap, pagecnt);
    }
  }

  lemma InsAroundApart(t: Tree, r: nat, sub: InsResult, cap: nat, pagecnt: nat)
    requires t.Node? && 2 <= cap && 1 <= |t.seps| <= cap && |t.kids| == |t.seps| + 1 && r <= |t.seps|
    requires Apart(t) && AllUnder(Pnos(t), pagecnt) && ResultApart(sub, t.kids[r], pagecnt)
    ensures ResultApart(InsAround(t.pno, t.kids, t.seps, r, sub, cap), t, pagecnt)
  {
    PnosAt(t.kids, r);
    if sub.Done? {
      DoneApart(t, r, sub, pagecnt);
    } else if sub.Split? {
      SplitApart(t, r, sub, cap, pagecnt);
    }
  }

  lemma DoneApart(t: Tree, r: nat, sub: InsResult, pagecnt: nat)
    requires t.Node? && r < |t.kids| && sub.Done? && Apart(t) && AllUnder(Pnos(t), pagecnt)
      && ResultApart(sub, t.kids[r], pagecnt)
    ensures ResultApart(Done(Node(t.pno, t.kids[r := sub.t], t.seps), sub.next), t, pagecnt)
  {
    var kids, ks := t.kids, t.kids[r := sub.t];
    PnosAt(kids, r);
    assert ks[..r] == kids[..r] && ks[r + 1..] == kids[r + 1..];
    PnosAt(ks, r);
  }

  lemma SplitApart(t: Tree, r: nat, sub: InsResult, cap: nat, pagecnt: nat)
    requires t.Node? && 2 <= cap && 1 <= |t.seps| <= cap && |t.kids| == |t.seps| + 1 && r <= |t.seps| && sub.Split?
    requires Apart(t) && AllUnder(Pnos(t), pagecnt) && ResultApart(sub, t.kids[r], pagecnt)
    ensures ResultApart(InsAround(t.pno, t.kids, t.seps, r, sub, cap), t, pagecnt)
  {
    var ks := t.kids[..r] + [sub.left, sub.right] + t.kids[r + 1..];
    var seps := t.seps[..r] + [sub.up] + t.seps[r..];
    KidsApart(t, r, sub, pagecnt);
    NodeApart(t.pno, ks, seps, cap, Pnos(t), pagecnt, sub.next);
  }

  lemma NodeApart(pno: nat, ks: seq<Tree>, seps: seq<Ent>, cap: nat, olds: set<nat>, pagecnt: nat, next: nat)
    requires 2 <= cap && 1 <= |seps| <= cap + 1 && |ks| == |seps| + 1
    requires ApartAll(ks) && pno !in PnosAll(ks) && Grown({pno} + PnosAll(ks), olds, pagecnt, next)
      && AllUnder(olds, pagecnt) && pno in olds
    ensures match InsNode(pno, ks, seps, cap, next)
      case Done(u, next') => Apart(u) && u.pno == pno && Grown(Pnos(u), olds, pagecnt, next')
      case Split(l, _, q, next') =>
        Apart(l) && Apart(q) && Pnos(l) !! Pnos(q) && l.pno == pno && Grown(Pnos(l) + Pnos(q), olds, pagecnt, next')
      case _ => true
  {
    if |seps| > cap {
      CutApart(pno, ks, cap / 2 + 1, olds, pagecnt, next);
    }
  }

  lemma KidsApart(t: Tree, r: nat, sub: InsResult, pagecnt: nat)
    requires t.Node? && r < |t.kids| && sub.Split?
    requires Apart(t) && AllUnder(Pnos(t), pagecnt) && ResultApart(sub, t.kids[r], pagecnt)
    ensures var ks := t.kids[..r] + [sub.left, sub.right] + t.kids[r + 1..];
      ApartAll(ks) && t.pno !in PnosAll(ks) && Grown({t.pno} + PnosAll(ks), Pnos(t), pagecnt, sub.next)
  {
    PnosAt(t.kids, r);
    PairApart(t.kids[..r], sub.left, sub.right, t.kids[r + 1..]);
  }

  /** A page cut in two, its right part on the next new page. */
  lemma CutApart(pno: nat, ks: seq<Tree>, n: nat, olds: set<nat>, pagecnt: nat, next: nat)
    requires n <= |ks| && ApartAll(ks) && pno !in PnosAll(ks) && Grown({pno} + PnosAll(ks), olds, pagecnt, next)
      && AllUnder(olds, pagecnt)
    ensures var a, b := PnosAll(ks[..n]), PnosAll(ks[n..]);
      && ApartAll(ks[..n]) && ApartAll(ks[n..]) && pno !in a && next !in b && ({pno} + a) !! ({next} + b)
      && Grown({pno} + a + {next} + b, olds, pagecnt, next + 1)
  {
    assert ks == ks[..n] + ks[n..];
    PnosConcat(ks[..n], ks[n..]);
  }

  lemma PairApart(a: seq<Tree>, l: Tree, q: Tree, c: seq<Tree>)
    requires ApartAll(a) && ApartAll(c) && Apart(l) && Apart(q)
    requires PnosAll(a) !! PnosAll(c) && Pnos(l) !! Pnos(q)
    requires PnosAll(a) !! Pnos(l) && PnosAll(a) !! Pnos(q) && PnosAll(c) !! Pnos(l) && PnosAll(c) !! Pnos(q)
    ensures ApartAll(a + [l, q] + c)
    ensures PnosAll(a + [l, q] + c) == PnosAll(a) + Pnos(l) + Pnos(q) + PnosAll(c)
  {
    assert [l, q][1..] == [q] && [q][1..] == [];
    assert PnosAll([q]) == Pnos(q) && ApartAll([q]);
    assert PnosAll([l, q]) == Pnos(l) + Pnos(q) && ApartAll([l, q]);
    PnosConcat(a + [l, q], c);
    PnosConcat(a, [l, q]);
  }

  // ---------------------------------------------------------------- deletion

  /** What taking the last entry off a subtree leaves: nothing; a lone child whose page above
      it has no separator left; or the subtree. With the entry gone, sep is the separator for
      the page above. */
  datatype TrimResult = NoneLeft | Lone(u: Tree, sep: Ent) | Trimmed(t: Tree, sep: Ent)

  datatype DelResult = Missing | Gone | Orphan(u: Tree) | Kept(t: Tree)

  ghost function Trim(t: Tree, cap: nat): TrimResult
    requires WF(t, cap)
    decreases t
  {
    match t
    case Leaf(pno, es) =>
      if |es| == 1 then NoneLeft
      else Trimmed(Leaf(pno, es[..|es| - 1]), Ent(es[|es| - 2].key, 0))
    case Node(pno, kids, seps) => TrimAround(pno, kids, seps, Trim(kids[|seps|], cap))
  }

  ghost function TrimAround(pno: nat, kids: seq<Tree>, seps: seq<Ent>, sub: TrimResult): TrimResult
    requires 1 <= |seps| && |kids| == |seps| + 1
  {
    var n := |seps|;
    match sub
    case NoneLeft =>
      if n == 1 then Lone(kids[0], seps[0])
      else Trimmed(Node(pno, kids[..n], seps[..n - 1]), seps[n - 1])
    case Lone(u, sep) => Trimmed(Node(pno, kids[n := u], seps), sep)
    case Trimmed(k, sep) => Trimmed(Node(pno, kids[n := k], seps), sep)
  }

  ghost function Del(t: Tree, x: Ent, cap: nat): DelResult
    requires RootWF(t, cap)
    decreases t
  {
    var r := Pos(Bounds(t), x);
    match t
    case Leaf(pno, es) =>
      if !Present(es, x) then Missing
      else if |es| == 1 then Gone else Kept(Leaf(pno, Remove(es, x)))
    case Node(pno, kids, seps) =>
      if Hits(Bounds(t), r, x, false) then DelHit(pno, kids, seps, r, Trim(kids[r], cap))
      else DelAround(pno, kids, seps, r, Del(kids[r], x, cap))
  }

  /** Child r is gone: so is the separator right of it (left of it for the last child). A page
      left without separators hands its only child to the page above. */
  ghost function DropChild(pno: nat, kids: seq<Tree>, seps: seq<Ent>, r: nat): DelResult
    requires 1 <= |seps| && |kids| == |seps| + 1 && r <= |seps|
  {
    if |seps| == 1 then Orphan(kids[1 - r])
    else Kept(Node(pno, kids[..r] + kids[r + 1..],
                   if r < |seps| then seps[..r] + seps[r + 1..] else seps[..r - 1]))
  }

  ghost function DelHit(pno: nat, kids: seq<Tree>, seps: seq<Ent>, r: nat, sub: TrimResult): DelResult
    requires 1 <= |seps| && |kids| == |seps| + 1 && r < |seps|
  {
    match sub
    case NoneLeft => DropChild(pno, kids, seps, r)
    case Lone(u, sep) => Kept(Node(pno, kids[r := u], seps[r := sep]))
    case Trimmed(k, sep) => Kept(Node(pno, kids[r := k], seps[r := sep]))
  }

  ghost function DelAround(pno: nat, kids: seq<Tree>, seps: seq<Ent>, r: nat, sub: DelResult): DelResult
    requires 1 <= |seps| && |kids| == |seps| + 1 && r <= |seps|
  {
    match sub
    case Missing => Missing
    case Gone => DropChild(pno, kids, seps, r)
    case Orphan(u) => Kept(Node(pno, kids[r := u], seps))
    case Kept(k) => Kept(Node(pno, kids[r := k], seps))
  }

  /** The tree a deletion leaves behind, whatever page it starts on. */
  ghost function Rest(res: DelResult): Tree
    requires res.Orphan? || res.Kept?
  {
    if res.Orphan? then res.u else res.t
  }

  ghost function RestOfTrim(res: TrimResult): Tree
    requires !res.NoneLeft?
  {
    if res.Lone? then res.u else res.t
  }

  ghost predicate TrimDelivers(res: TrimResult, s: seq<Ent>, cap: nat)
    requires s != []
  {
    if res.NoneLeft? then |s| == 1
    else
      var u := RestOfTrim(res);
      WF(u, cap) && Flat(u) == s[..|s| - 1] && res.sep.key == Last(u).key
  }

  /** Trimming a well-formed subtree drops exactly its last entry, leaves a well-formed tree
      and hands up the key of the new last entry. */
  lemma {:induction false} TrimCorrect(t: Tree, cap: nat)
    requires WF(t, cap)
    ensures Flat(t) != [] && TrimDelivers(Trim(t, cap), Flat(t), cap)
    decreases t
  {
    WFShaped(t, cap);
    LastIsFlatLast(t, cap);
    if t.Node? {
      var n := |t.seps|;
      TrimCorrect(t.kids[n], cap);
      TrimAroundCorrect(t.pno, t.kids, t.seps, Trim(t.kids[n], cap), cap);
    }
  }

  lemma TrimAroundCorrect(pno: nat, kids: seq<Tree>, seps: seq<Ent>, sub: TrimResult, cap: nat)
    requires 0 < pno && 1 <= |seps| <= cap && Family(kids, seps, cap)
    requires Flat(kids[|seps|]) != [] && TrimDelivers(sub, Flat(kids[|seps|]), cap)
    ensures FlatAll(kids) != [] && TrimDelivers(TrimAround(pno, kids, seps, sub), FlatAll(kids), cap)
  {
    if sub.NoneLeft? {
      TrimShorter(pno, kids, seps, sub, cap);
    } else {
      var u, n := RestOfTrim(sub), |seps|;
      FlatAt(kids, n);
      assert kids[n + 1..] == [];
      FlatReplaceOne(kids, n, u);
      assert WF(Node(pno, kids[n := u], seps), cap) by {
        assert Family(kids[n := u], seps, cap);
      }
    }
  }

  /** The last child held one entry only: it goes, and the last separator with it. */
  lemma TrimShorter(pno: nat, kids: seq<Tree>, seps: seq<Ent>, sub: TrimResult, cap: nat)
    requires 0 < pno && 1 <= |seps| <= cap && Family(kids, seps, cap)
    requires |Flat(kids[|seps|])| == 1 && sub.NoneLeft?
    ensures FlatAll(kids) != [] && TrimDelivers(TrimAround(pno, kids, seps, sub), FlatAll(kids), cap)
  {
    var n := |seps|;
    FlatAt(kids, n);
    assert kids[n + 1..] == [];
    if n == 1 {
      assert kids[..1] == [kids[0]];
      FlatSingle(kids[0]);
    }
  }

  lemma FlatDrop(kids: seq<Tree>, r: nat)
    requires r < |kids|
    ensures FlatAll(kids[..r] + kids[r + 1..]) == FlatAll(kids[..r]) + FlatAll(kids[r + 1..])
  {
    FlatAllConcat(kids[..r], kids[r + 1..]);
  }

  lemma DropChildFlat(pno: nat, kids: seq<Tree>, seps: seq<Ent>, r: nat)
    requires 1 <= |seps| && |kids| == |seps| + 1 && r <= |seps|
    ensures Flat(Rest(DropChild(pno, kids, seps, r))) == FlatAll(kids[..r]) + FlatAll(kids[r + 1..])
  {
    FlatDrop(kids, r);
    if |seps| == 1 {
      FlatSingle(kids[1 - r]);
      assert kids[..r] + kids[r + 1..] == [kids[1 - r]];
    }
  }

  lemma DropChildWF(pno: nat, kids: seq<Tree>, seps: seq<Ent>, r: nat, cap: nat)
    requires 0 < pno && 1 <= |seps| <= cap && Family(kids, seps, cap) && r <= |seps|
    ensures WF(Rest(DropChild(pno, kids, seps, r)), cap)
  {
    if |seps| > 1 {
      var ks := kids[..r] + kids[r + 1..];
      var ss := if r < |seps| then seps[..r] + seps[r + 1..] else seps[..r - 1];
      forall i | 0 <= i < |ks| ensures WF(ks[i], cap) && ks[i] == kids[if i < r then i else i + 1] {
      }
      forall i | 0 <= i < |ss| ensures ss[i].key == Last(ks[i]).key {
        assert ss[i] == seps[if i < r then i else i + 1];
      }
    }
  }

  ghost predicate DelDelivers(res: DelResult, s: seq<Ent>, x: Ent) {
    && (res == Missing <==> !Present(s, x))
    && (res == Gone ==> s == [x])
    && (res.Orphan? || res.Kept? ==> Present(s, x) && Flat(Rest(res)) == Remove(s, x))
  }

  /** A deletion reports a missing entry exactly when it is not among the leaf entries;
      otherwise the leaf entries are the old ones without it. */
  lemma {:induction false} DelCorrect(t: Tree, x: Ent, cap: nat)
    requires RootWF(t, cap) && Sorted(Flat(t))
    ensures DelDelivers(Del(t, x, cap), Flat(t), x)
    decreases t
  {
    if t.Node? {
      var r := Pos(Bounds(t), x);
      WFShaped(t, cap);
      ScanDescends(t, cap, x);
      if Hits(Bounds(t), r, x, false) {
        TrimCorrect(t.kids[r], cap);
        DelHitCorrect(t, x, r, Trim(t.kids[r], cap), cap);
      } else {
        DelCorrect(t.kids[r], x, cap);
        DelAroundCorrect(t, x, r, Del(t.kids[r], x, cap));
      }
    }
  }

  /** The leaf entries after a hit: those of child r lose their last one. */
  lemma DelHitFlat(t: Tree, r: nat, sub: TrimResult, cap: nat)
    requires WF(t, cap) && t.Node? && r < |t.seps| && Flat(t.kids[r]) != [] && TrimDelivers(sub, Flat(t.kids[r]), cap)
    ensures var b, res := Flat(t.kids[r]), DelHit(t.pno, t.kids, t.seps, r, sub);
      (res.Orphan? || res.Kept?) && Flat(Rest(res)) == FlatAll(t.kids[..r]) + b[..|b| - 1] + FlatAll(t.kids[r + 1..])
  {
    if sub.NoneLeft? {
      DropChildFlat(t.pno, t.kids, t.seps, r);
      assert FlatAll(t.kids[..r]) + [] == FlatAll(t.kids[..r]);
    } else {
      FlatReplaceOne(t.kids, r, RestOfTrim(sub));
    }
  }

  lemma DelHitCorrect(t: Tree, x: Ent, r: nat, sub: TrimResult, cap: nat)
    requires WF(t, cap) && t.Node? && r < |t.seps| && Descends(t.kids, r, x)
    requires Sorted(Flat(t.kids[r])) && Last(t.kids[r]) == x
    requires Flat(t.kids[r]) != [] && TrimDelivers(sub, Flat(t.kids[r]), cap)
    ensures DelDelivers(DelHit(t.pno, t.kids, t.seps, r, sub), Flat(t), x)
  {
    var a, b, c := FlatAll(t.kids[..r]), Flat(t.kids[r]), FlatAll(t.kids[r + 1..]);
    FlatAt(t.kids, r);
    WFShaped(t.kids[r], cap);
    LastIsFlatLast(t.kids[r], cap);
    PosUnique(b, x, |b| - 1);
    RemoveMid(a, b, c, x);
    assert Remove(b, x) == b[..|b| - 1];
    DelHitFlat(t, r, sub, cap);
  }

  lemma DelAroundCorrect(t: Tree, x: Ent, r: nat, sub: DelResult)
    requires t.Node? && 1 <= |t.seps| && |t.kids| == |t.seps| + 1 && Descends(t.kids, r, x)
    requires DelDelivers(sub, Flat(t.kids[r]), x)
    ensures DelDelivers(DelAround(t.pno, t.kids, t.seps, r, sub), Flat(t), x)
  {
    var a, b, c := FlatAll(t.kids[..r]), Flat(t.kids[r]), FlatAll(t.kids[r + 1..]);
    FlatAt(t.kids, r);
    if sub == Missing {
      AbsentMid(a, b, c, x);
    } else {
      RemoveMid(a, b, c, x);
      DelAroundFlat(t.pno, t.kids, t.seps, r, sub);
      assert sub == Gone ==> Remove(b, x) == [];
    }
  }

  lemma DelAroundFlat(pno: nat, kids: seq<Tree>, seps: seq<Ent>, r: nat, sub: DelResult)
    requires 1 <= |seps| && |kids| == |seps| + 1 && r <= |seps| && sub != Missing
    ensures Flat(Rest(DelAround(pno, kids, seps, r, sub)))
            == FlatAll(kids[..r]) + (if sub == Gone then [] else Flat(Rest(sub))) + FlatAll(kids[r + 1..])
  {
    if sub == Gone {
      DropChildFlat(pno, kids, seps, r);
    } else {
      FlatReplaceOne(kids, r, Rest(sub));
    }
  }

  lemma AbsentMid(a: seq<Ent>, b: seq<Ent>, c: seq<Ent>, x: Ent)
    requires AllBelow(a, x) && AllAbove(c, x) && !Present(b, x)
    ensures !Present(a + b + c, x)
  {
    PosMid(a, b, c, x);
    var k := Pos(b, x);
    if k < |b| { assert (a + b + c)[|a| + k] == b[k]; }
    else if c != [] { assert (a + b + c)[|a| + k] == c[0]; }
  }

  /** Deletion re-establishes well-formedness; no page is left without separators. */
  lemma {:induction false} DelKeepsWF(t: Tree, x: Ent, cap: nat)
    requires RootWF(t, cap) && Sorted(Flat(t))
    ensures var res := Del(t, x, cap); res.Orphan? || res.Kept? ==> WF(Rest(res), cap)
    decreases t
  {
    if t.Leaf? {
      if Present(t.es, x) {
        forall i | 0 <= i < |Remove(t.es, x)| ensures 0 < Remove(t.es, x)[i].recno {
          assert Remove(t.es, x)[i] == t.es[if i < Pos(t.es, x) then i else i + 1];
        }
      }
    } else {
      var r := Pos(Bounds(t), x);
      WFShaped(t, cap);
      ScanDescends(t, cap, x);
      if Hits(Bounds(t), r, x, false) {
        TrimCorrect(t.kids[r], cap);
        DelHitWF(t, r, Trim(t.kids[r], cap), cap);
      } else {
        DelKeepsWF(t.kids[r], x, cap);
        DelLast(t, x, cap);
        DelAroundWF(t, r, Del(t.kids[r], x, cap), cap);
      }
    }
  }

  lemma DelHitWF(t: Tree, r: nat, sub: TrimResult, cap: nat)
    requires WF(t, cap) && t.Node? && r < |t.seps|
    requires !sub.NoneLeft? ==> WF(RestOfTrim(sub), cap) && sub.sep.key == Last(RestOfTrim(sub)).key
    ensures WF(Rest(DelHit(t.pno, t.kids, t.seps, r, sub)), cap)
  {
    if sub.NoneLeft? {
      DropChildWF(t.pno, t.kids, t.seps, r, cap);
    }
  }

  lemma DelAroundWF(t: Tree, r: nat, sub: DelResult, cap: nat)
    requires WF(t, cap) && t.Node? && r <= |t.seps|
    requires sub.Orphan? || sub.Kept? ==>
               WF(Rest(sub), cap) && (r < |t.seps| ==> Last(Rest(sub)) == Last(t.kids[r]))
    ensures sub != Missing ==> WF(Rest(DelAround(t.pno, t.kids, t.seps, r, sub)), cap)
  {
    if sub.Gone? {
      DropChildWF(t.pno, t.kids, t.seps, r, cap);
    }
  }

  lemma RemoveKeepsLast(s: seq<Ent>, x: Ent)
    requires Present(s, x) && Less(x, s[|s| - 1])
    ensures |Remove(s, x)| == |s| - 1 && |s| > 1 && Remove(s, x)[|s| - 2] == s[|s| - 1]
  {
  }

  lemma KeptLast(u: Tree, res: DelResult, x: Ent, cap: nat)
    requires WF(u, cap) && Sorted(Flat(u)) && Less(x, Last(u))
    requires (res.Orphan? || res.Kept?) && DelDelivers(res, Flat(u), x) && WF(Rest(res), cap)
    ensures Last(Rest(res)) == Last(u)
  {
    WFShaped(u, cap);
    LastIsFlatLast(u, cap);
    WFShaped(Rest(res), cap);
    LastIsFlatLast(Rest(res), cap);
    RemoveKeepsLast(Flat(u), x);
  }

  /** Left of a separator that was not hit, the subtree keeps its last entry. */
  lemma DelLast(t: Tree, x: Ent, cap: nat)
    requires WF(t, cap) && t.Node? && Sorted(Flat(t))
    requires var r := Pos(Bounds(t), x);
             && !Hits(Bounds(t), r, x, false)
             && (var sub := Del(t.kids[r], x, cap); sub.Orphan? || sub.Kept? ==> WF(Rest(sub), cap))
    ensures var r := Pos(Bounds(t), x);
            var sub := Del(t.kids[r], x, cap);
            r < |t.seps| && (sub.Orphan? || sub.Kept?) ==> Last(Rest(sub)) == Last(t.kids[r])
  {
    var r := Pos(Bounds(t), x);
    var sub := Del(t.kids[r], x, cap);
    if r < |t.seps| && (sub.Orphan? || sub.Kept?) {
      WFShaped(t, cap);
      ScanDescends(t, cap, x);
      DelCorrect(t.kids[r], x, cap);
      assert Bounds(t)[r] == Last(t.kids[r]);
      KeptLast(t.kids[r], sub, x, cap);
    }
  }

  // ---------------------------------------------------------------- deletion and pages

  lemma PnosReplace(kids: seq<Tree>, r: nat, k: Tree)
    requires r < |kids| && ApartAll(kids) && Apart(k) && Pnos(k) <= Pnos(kids[r])
    ensures ApartAll(kids[r := k]) && PnosAll(kids[r := k]) <= PnosAll(kids)
  {
    PnosAt(kids, r);
    PnosAt(kids[r := k], r);
    assert kids[r := k][..r] == kids[..r] && kids[r := k][r + 1..] == kids[r + 1..];
  }

  lemma PnosDrop(kids: seq<Tree>, r: nat)
    requires r < |kids| && ApartAll(kids)
    ensures ApartAll(kids[..r] + kids[r + 1..]) && PnosAll(kids[..r] + kids[r + 1..]) <= PnosAll(kids)
    ensures forall i :: 0 <= i < |kids| ==> Apart(kids[i]) && Pnos(kids[i]) <= PnosAll(kids)
  {
    PnosAt(kids, r);
    PnosConcat(kids[..r], kids[r + 1..]);
    forall i | 0 <= i < |kids| ensures Apart(kids[i]) && Pnos(kids[i]) <= PnosAll(kids) {
      PnosAt(kids, i);
    }
  }

  lemma {:induction false} TrimKeepsApart(t: Tree, cap: nat)
    requires WF(t, cap) && Apart(t)
    ensures var res := Trim(t, cap);
            !res.NoneLeft? ==> Apart(RestOfTrim(res)) && Pnos(RestOfTrim(res)) <= Pnos(t)
    ensures Trim(t, cap).Trimmed? ==> Trim(t, cap).t.pno == t.pno
    decreases t
  {
    if t.Node? {
      var n := |t.seps|;
      PnosDrop(t.kids, n);
      assert t.kids[..n] + t.kids[n + 1..] == t.kids[..n];
      TrimKeepsApart(t.kids[n], cap);
      var sub := Trim(t.kids[n], cap);
      if !sub.NoneLeft? {
        PnosReplace(t.kids, n, RestOfTrim(sub));
      }
    }
  }

  lemma {:induction false} DelKeepsApart(t: Tree, x: Ent, cap: nat)
    requires RootWF(t, cap) && Apart(t)
    ensures var res := Del(t, x, cap);
            res.Orphan? || res.Kept? ==> Apart(Rest(res)) && Pnos(Rest(res)) <= Pnos(t)
    ensures Del(t, x, cap).Kept? ==> Del(t, x, cap).t.pno == t.pno
    decreases t
  {
    if t.Node? {
      var r := Pos(Bounds(t), x);
      PnosDrop(t.kids, r);
      if Hits(Bounds(t), r, x, false) {
        TrimKeepsApart(t.kids[r], cap);
        var sub := Trim(t.kids[r], cap);
        if !sub.NoneLeft? {
          PnosReplace(t.kids, r, RestOfTrim(sub));
        }
      } else {
        DelKeepsApart(t.kids[r], x, cap);
        var sub := Del(t.kids[r], x, cap);
        if sub.Orphan? || sub.Kept? {
          PnosReplace(t.kids, r, Rest(sub));
        }
      }
    }
  }

  // ---------------------------------------------------------------- refused insertions

  /**
   * The tree a refused insertion leaves below the page: the pages above the refusal are as they
   * were, and the child that had already split is left with its left half.
   */
  ghost function Remains(t: Tree, x: Ent, unique: bool, cap: nat, pagecnt: nat): Tree
    requires RootWF(t, cap) && 2 <= cap && Ins(t, x, unique, cap, pagecnt) == Invalid
    decreases t
  {
    var r := Pos(Bounds(t), Probe(x, unique));
    var sub := Ins(t.kids[r], x, unique, cap, pagecnt);
    Node(t.pno, t.kids[r := if sub.Invalid? then Remains(t.kids[r], x, unique, cap, pagecnt) else sub.left], t.seps)
  }

  /** The entries of the right half, whose page no pointer leads to. */
  ghost function Lost(t: Tree, x: Ent, unique: bool, cap: nat, pagecnt: nat): seq<Ent>
    requires RootWF(t, cap) && 2 <= cap && Ins(t, x, unique, cap, pagecnt) == Invalid
    decreases t
  {
    var r := Pos(Bounds(t), Probe(x, unique));
    var sub := Ins(t.kids[r], x, unique, cap, pagecnt);
    if sub.Invalid? then Lost(t.kids[r], x, unique, cap, pagecnt) else Flat(sub.right)
  }

  lemma SplitPno(t: Tree, x: Ent, unique: bool, cap: nat, pagecnt: nat)
    requires RootWF(t, cap) && 2 <= cap
    ensures var res := Ins(t, x, unique, cap, pagecnt); res.Split? ==> res.left.pno == t.pno
  {
  }

  /**
   * A refused insertion is not one that changes nothing: with x at its place, one stretch of
   * the entries is no longer in the tree.
   */
  lemma {:induction false} RefusedLoses(t: Tree, x: Ent, unique: bool, cap: nat, pagecnt: nat)
    returns (a: seq<Ent>, b: seq<Ent>)
    requires RootWF(t, cap) && 2 <= cap && Sorted(Flat(t)) && 0 < x.recno && Ins(t, x, unique, cap, pagecnt) == Invalid
    ensures InsertSorted(Flat(t), x) == a + Lost(t, x, unique, cap, pagecnt) + b
    ensures Flat(Remains(t, x, unique, cap, pagecnt)) == a + b
    decreases t
  {
    var r := Pos(Bounds(t), Probe(x, unique));
    var kid := t.kids[r];
    var sub := Ins(kid, x, unique, cap, pagecnt);
    InsertInKid(t, x, unique, cap);
    if sub.Invalid? {
      a, b := RefusedLoses(kid, x, unique, cap, pagecnt);
      RefusedBelow(t, x, unique, cap, Remains(kid, x, unique, cap, pagecnt), a, Lost(kid, x, unique, cap, pagecnt), b);
    } else {
      a, b := Flat(sub.left), [];
      SplitLoses(kid, x, unique, cap, pagecnt);
      RefusedBelow(t, x, unique, cap, sub.left, a, Flat(sub.right), b);
    }
    RemainsIs(t, x, unique, cap, pagecnt);
    a, b := FlatAll(t.kids[..r]) + a, b + FlatAll(t.kids[r + 1..]);
  }

  lemma RemainsIs(t: Tree, x: Ent, unique: bool, cap: nat, pagecnt: nat)
    requires RootWF(t, cap) && 2 <= cap && Ins(t, x, unique, cap, pagecnt) == Invalid
    ensures var r := Pos(Bounds(t), Probe(x, unique)); var sub := Ins(t.kids[r], x, unique, cap, pagecnt);
      (sub.Invalid? || sub.Split?)
      && Remains(t, x, unique, cap, pagecnt) ==
          Node(t.pno, t.kids[r := LeftOf(t.kids[r], x, unique, cap, pagecnt)], t.seps)
  {
  }

  /** What a child is left as when it sends up what its parent refuses, or is refused itself. */
  ghost function LeftOf(t: Tree, x: Ent, unique: bool, cap: nat, pagecnt: nat): Tree
    requires RootWF(t, cap) && 2 <= cap
      && (Ins(t, x, unique, cap, pagecnt).Invalid? || Ins(t, x, unique, cap, pagecnt).Split?)
  {
    var res := Ins(t, x, unique, cap, pagecnt);
    if res.Invalid? then Remains(t, x, unique, cap, pagecnt) else res.left
  }

  lemma RefusedBelow(t: Tree, x: Ent, unique: bool, cap: nat, left: Tree, a: seq<Ent>, lost: seq<Ent>, b: seq<Ent>)
    requires WF(t, cap) && t.Node? && Sorted(Flat(t)) && !Hits(Bounds(t), Pos(Bounds(t), Probe(x, unique)), x, unique)
    requires InsertSorted(Flat(t.kids[Pos(Bounds(t), Probe(x, unique))]), x) == a + lost + b && Flat(left) == a + b
    ensures var r := Pos(Bounds(t), Probe(x, unique));
      InsertSorted(Flat(t), x) == (FlatAll(t.kids[..r]) + a) + lost + (b + FlatAll(t.kids[r + 1..]))
      && Flat(Node(t.pno, t.kids[r := left], t.seps)) == (FlatAll(t.kids[..r]) + a) + (b + FlatAll(t.kids[r + 1..]))
  {
    var r := Pos(Bounds(t), Probe(x, unique));
    InsertInKid(t, x, unique, cap);
    FlatReplaceOne(t.kids, r, left);
    Regroup5(FlatAll(t.kids[..r]), a, lost, b, FlatAll(t.kids[r + 1..]));
  }

  lemma SplitLoses(t: Tree, x: Ent, unique: bool, cap: nat, pagecnt: nat)
    requires RootWF(t, cap) && 2 <= cap && Sorted(Flat(t)) && 0 < x.recno && Ins(t, x, unique, cap, pagecnt).Split?
    ensures var sub := Ins(t, x, unique, cap, pagecnt);
      InsertSorted(Flat(t), x) == Flat(sub.left) + Flat(sub.right) + [] && Flat(sub.left) == Flat(sub.left) + []
  {
    InsCorrect(t, x, unique, cap, pagecnt);
  }

  lemma {:induction false} LosesSome(t: Tree, x: Ent, unique: bool, cap: nat, pagecnt: nat)
    requires RootWF(t, cap) && 2 <= cap && Sorted(Flat(t)) && 0 < x.recno && 0 < pagecnt
      && Ins(t, x, unique, cap, pagecnt) == Invalid
    ensures Lost(t, x, unique, cap, pagecnt) != []
    decreases t
  {
    var r := Pos(Bounds(t), Probe(x, unique));
    var sub := Ins(t.kids[r], x, unique, cap, pagecnt);
    InsertInKid(t, x, unique, cap);
    if sub.Invalid? {
      LosesSome(t.kids[r], x, unique, cap, pagecnt);
    } else {
      InsKeepsWF(t.kids[r], x, unique, cap, pagecnt);
      WFShaped(sub.right, cap);
      LastIsFlatLast(sub.right, cap);
    }
  }

  lemma Regroup5(x: seq<Ent>, a: seq<Ent>, m: seq<Ent>, b: seq<Ent>, y: seq<Ent>)
    ensures x + (a + m + b) + y == (x + a) + m + (b + y) && x + (a + b) + y == (x + a) + (b + y)
  {
  }

  /** An entry that is not in the tree goes into the child where the scan stops. */
  lemma InsertInKid(t: Tree, x: Ent, unique: bool, cap: nat)
    requires WF(t, cap) && t.Node? && Sorted(Flat(t))
    requires !Hits(Bounds(t), Pos(Bounds(t), Probe(x, unique)), x, unique)
    ensures var r := Pos(Bounds(t), Probe(x, unique));
      r < |t.kids| && Sorted(Flat(t.kids[r]))
      && InsertSorted(Flat(t), x) == FlatAll(t.kids[..r]) + InsertSorted(Flat(t.kids[r]), x) + FlatAll(t.kids[r + 1..])
  {
    var r := Pos(Bounds(t), Probe(x, unique));
    WFShaped(t, cap);
    ScanDescends(t, cap, Probe(x, unique));
    StrictDescent(t, cap, x, unique);
    FlatAt(t.kids, r);
    InsertMid(FlatAll(t.kids[..r]), Flat(t.kids[r]), FlatAll(t.kids[r + 1..]), x);
  }
}
