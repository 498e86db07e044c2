/** What the engine does with an index file as a whole: insert with root growth, and replace a
    record's old key by its new one. Each does to the file what module IndexState says. */
module IndexOps {
  import opened Options
  import opened Entries
  import opened BTree
  import opened Pages
  import opened IndexFile
  import opened IndexState

  /** What decides the fate of an index. */
  ghost function FileOf(ndx: Index): (f: File)
    reads ndx
    ensures ndx.Valid() ==> Sound(f) && EntriesOf(f) == ndx.Entries()
  {
    File(ndx.cap, ndx.unique, if ndx.rootNo == 0 then None else Some(ndx.tree), ndx.pageCnt)
  }

  /** No separator with record number 0: so in every index that was only ever inserted into. */
  ghost predicate Numbered(ndx: Index)
    reads ndx
  {
    ndx.rootNo != 0 ==> SepsNumbered(ndx.tree)
  }

  /**
   * What a refused insertion leaves in the file: below the root, the tree of BTree.Remains, from
   * which the entries of BTree.Lost are missing.
   */
  ghost predicate LeftBehind(pages: map<nat, Image>, rootNo: nat, f: File, x: Ent) {
    && Sound(f) && Inserted(f, x) == Refused && f.root.v.pno == rootNo
    && Rep(pages, Remains(f.root.v, x, f.unique, f.cap, f.pageCnt))
  }

  /** A page above the old root takes what came up: the first entry of the index, or the
      separator between the halves of the old root. */
  method GrowRoot(ndx: Index, out: Slot, ghost t: Tree)
    requires 2 <= ndx.cap && 0 < ndx.pageCnt && AllUnder(ndx.pages.Keys, ndx.pageCnt)
    requires ImageOf(t) == Image([Rec(out)], [ndx.rootNo, out.pno]) && t.pno == ndx.pageCnt
    requires if ndx.rootNo == 0 then out.recno != 0 else out.pno != 0
    modifies ndx
    ensures ndx.pages == old(ndx.pages)[t.pno := ImageOf(t)]
    ensures ndx.pageCnt == old(ndx.pageCnt) + 1 && ndx.rootNo == t.pno && ndx.unique == old(ndx.unique)
    ensures ndx.tree == old(ndx.tree)
  {
    var p := ndx.GetPage(ndx.pageCnt);
    p.cnt := 1;
    p.PutPageno(0, ndx.rootNo);
    ndx.rootNo := ndx.pageCnt;
    ndx.pageCnt := ndx.pageCnt + 1;
    var _, leaf := InsertEntry(p, 0, out);
    if leaf { ndx.pageNo, ndx.entryNo := 0, 0; }
    assert p.Holds(ImageOf(t));
    ndx.WritePage(ndx.rootNo, p, ImageOf(t));
  }

  /** The new root is in the file, above the two halves of the old one. */
  lemma RootWritten(pages: map<nat, Image>, pages': map<nat, Image>, l: Tree, up: Ent, q: Tree, cap: nat, pno: nat)
    requires 2 <= cap && 0 < pno && WF(l, cap) && WF(q, cap) && up.key == Last(l).key
    requires Rep(pages, l) && Rep(pages, q) && Apart(l) && Apart(q) && Pnos(l) !! Pnos(q)
    requires AllUnder(Pnos(l) + Pnos(q), pno)
    requires var t := Node(pno, [l, q], [up]); pages' == pages[pno := ImageOf(t)]
    ensures var t := Node(pno, [l, q], [up]);
            WF(t, cap) && Holds(pages', t, pno + 1) && Flat(t) == Flat(l) + Flat(q)
  {
    NewRoot(l, up, q, cap, pno);
    RepPage(pages, pages', Node(pno, [l, q], [up]));
  }

  function CodeFor(o: Outcome): Code {
    match o
    case Now(_) => OK
    case Refused => INVALID_ENTRY
    case Duplicated => DUPKEY
    case Absent => NTNDX
  }

  /** Insert one entry. A duplicate (with UNIQUE on: a duplicate key) changes nothing; an
      accepted entry goes to its place in the order and nothing else changes. */
  method InsertNew(ndx: Index, target: Slot) returns (rc: Code)
    requires ndx.Valid() && 0 < target.recno && target.pno == 0
    modifies ndx
    ensures ndx.unique == old(ndx.unique)
    ensures var o := old(Inserted(FileOf(ndx), Rec(target)));
            rc == CodeFor(o) && (rc == OK ==> FileOf(ndx) == o.f) && (rc == DUPKEY ==> FileOf(ndx) == old(FileOf(ndx)))
    ensures rc == DUPKEY <==> Taken(old(ndx.Entries()), Rec(target), ndx.unique)
    ensures rc == INVALID_ENTRY <==> old(Refuses(FileOf(ndx), Rec(target)))
    ensures rc == OK || rc == DUPKEY || rc == INVALID_ENTRY
    ensures rc == DUPKEY ==> ndx.Valid() && ndx.Entries() == old(ndx.Entries())
    ensures rc == OK ==> ndx.Valid() && ndx.Entries() == InsertSorted(old(ndx.Entries()), Rec(target))
    ensures rc == INVALID_ENTRY ==> LeftBehind(ndx.pages, ndx.rootNo, old(FileOf(ndx)), Rec(target))
    ensures old(Numbered(ndx)) ==> rc != INVALID_ENTRY && Numbered(ndx)
  {
    ghost var t, x := ndx.tree, Rec(target);
    InsertedIs(FileOf(ndx), x);
    if ndx.rootNo != 0 {
      InsFacts(t, x, ndx.unique, ndx.cap, ndx.pageCnt);
    }
    var out;
    rc, out := ndx.BtSrIn(ndx.rootNo, target, t);
    if rc != OK {
      return;
    }
    Settle(ndx, out, if old(ndx.rootNo) == 0 then Duplicate else Ins(t, x, ndx.unique, ndx.cap, old(ndx.pageCnt)),
           t, old(ndx.pageCnt));
  }

  /** What the insertion below the root hands over: the target itself when there is no root. */
  ghost predicate Arrives(ndx: Index, out: Slot, res: InsResult, t: Tree, cnt: nat)
    reads ndx
  {
    if ndx.rootNo == 0 then out.recno != 0 && out.pno == 0
    else
      && 0 < cnt <= ndx.pageCnt && t.pno == ndx.rootNo && AllUnder(Pnos(t), cnt)
      && (res.Done? || res.Split?) && SentUp(out, res) && ResultRep(ndx.pages, res) && ndx.pageCnt == res.next
      && ResultApart(res, t, cnt) && ResultWF(res, ndx.cap) && Sorted(ResultFlat(res))
  }

  /** The insertion is through: take over its tree, under a new root when something came up. */
  method Settle(ndx: Index, out: Slot, ghost res: InsResult, ghost t: Tree, ghost cnt: nat)
    requires 2 <= ndx.cap && 0 < ndx.pageCnt && AllUnder(ndx.pages.Keys, ndx.pageCnt) && Arrives(ndx, out, res, t, cnt)
    modifies ndx
    ensures ndx.Valid() && ndx.unique == old(ndx.unique)
    ensures ndx.Entries() == if old(ndx.rootNo) == 0 then [Rec(out)] else ResultFlat(res)
    ensures old(ndx.rootNo) == 0 || ResultNumbered(res) ==> Numbered(ndx)
    ensures ndx.rootNo != 0
    ensures if old(ndx.rootNo) == 0 then ndx.tree == Leaf(old(ndx.pageCnt), [Rec(out)])
      && ndx.pageCnt == old(ndx.pageCnt) + 1
            else if res.Done? then ndx.tree == res.t && ndx.pageCnt == res.next
            else ndx.tree == Node(res.next, [res.left, res.right], [res.up]) && ndx.pageCnt == res.next + 1
  {
    if out.recno != 0 || out.pno != 0 {
      ghost var r := if ndx.rootNo == 0 then Leaf(ndx.pageCnt, [Rec(out)])
          else Node(ndx.pageCnt, [res.left, res.right], [res.up]);
      assert seq(2, i => 0) == [0, 0];
      assert ImageOf(r).ptrs == [ndx.rootNo, out.pno];
      GrowRoot(ndx, out, r);
      if old(ndx.rootNo) != 0 {
        RootWritten(old(ndx.pages), ndx.pages, res.left, res.up, res.right, ndx.cap, old(ndx.pageCnt));
      }
      ndx.tree := r;
    } else {
      ndx.tree := res.t;
    }
  }

  /** Take one entry out of the index. A root page that is not needed any more gives way to its
      only child, or to nothing when the index is empty. */
  method DeleteOld(ndx: Index, target: Slot) returns (rc: Code)
    requires ndx.Valid()
    modifies ndx
    ensures ndx.Valid() && ndx.unique == old(ndx.unique)
    ensures rc == OK || rc == NTNDX
    ensures rc == OK <==> Present(old(ndx.Entries()), Rec(target))
    ensures rc == NTNDX ==> ndx.Entries() == old(ndx.Entries())
    ensures rc == OK ==> ndx.Entries() == Remove(old(ndx.Entries()), Rec(target))
    ensures var o := old(Deleted(FileOf(ndx), Rec(target)));
            rc == CodeFor(o) && FileOf(ndx) == if rc == OK then o.f else old(FileOf(ndx))
  {
    ghost var t, x := ndx.tree, Rec(target);
    if ndx.rootNo != 0 {
      DelFacts(t, x, ndx.cap);
    }
    var rm, orphan;
    rc, rm, orphan := ndx.BtSrDel(ndx.rootNo, target, t);
    if rc != OK {
      return;
    }
    ghost var res := Del(t, x, ndx.cap);
    if rm {
      if orphan != 0 {
        ndx.rootNo := orphan;
      } else {
        // the pages past pagecnt are never read again
        ndx.rootNo, ndx.pageCnt, ndx.pages := 0, 1, map[];
      }
    }
    ndx.tree := if res.Gone? then t else Rest(res);
  }

  /** Replace the entry of record recno. It fails where the insertion is refused, and where the old
      entry is not in the index, which with UNIQUE off does not happen. */
  method RemoveOldInsertNew(ndx: Index, recno: nat, oldKey: Option<int>, newKey: Option<int>) returns (rc: Code)
    requires ndx.Valid() && 0 < recno
    modifies ndx
    ensures ndx.unique == old(ndx.unique)
    ensures var o := old(Changed(FileOf(ndx), recno, oldKey, newKey));
      rc == CodeFor(o) && (rc == OK ==> FileOf(ndx) == o.f)
    ensures rc == OK || rc == INVALID_ENTRY || rc == NTNDX
    ensures rc == NTNDX <==> old(Misses(FileOf(ndx), recno, oldKey, newKey))
    ensures rc == INVALID_ENTRY <==> old(RefusesChange(FileOf(ndx), recno, oldKey, newKey))
    ensures rc == NTNDX ==> ndx.Valid() && FileOf(ndx) == old(FileOf(ndx))
    ensures rc == OK ==> ndx.Valid() && ndx.Entries() == Replaced(old(ndx.Entries()), oldKey, newKey, recno, ndx.unique)
    ensures rc == INVALID_ENTRY ==>
              LeftBehind(ndx.pages, ndx.rootNo, Dropped(old(FileOf(ndx)), recno, oldKey).f, Ent(newKey.v, recno))
  {
    rc := OK;
    ghost var f := FileOf(ndx);
    ChangedIs(f, recno, oldKey, newKey);
    var doUpdate := oldKey.None? || newKey.None? || oldKey.v != newKey.v;
    if doUpdate {
      if oldKey.Some? {
        rc := DeleteOld(ndx, Slot(0, recno, oldKey.v));
        if rc != OK {
          return;
        }
      }
      if newKey.Some? {
        assert FileOf(ndx) == Dropped(f, recno, oldKey).f;
        rc := InsertNew(ndx, Slot(0, recno, newKey.v));
        if rc == DUPKEY { rc := OK; }
      }
    }
  }
}
