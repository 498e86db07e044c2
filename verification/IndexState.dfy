/** What the operations of an index do to it, as functions of what decides their fate: the pages
    of the file are those of a tree, and how many there are. Module IndexOps does the same to the
    file itself. */
module IndexState {
  import opened Options
  import opened Entries
  import opened BTree

  /** The page capacity, SET UNIQUE, the tree below the root page if there is one, and the number
      of pages in the file. */
  datatype File = File(cap: nat, unique: bool, root: Option<Tree>, pageCnt: nat)

  ghost predicate Sound(f: File) {
    2 <= f.cap && 0 < f.pageCnt
    && (f.root.Some? ==>
         var t := f.root.v;
         RootWF(t, f.cap) && Sorted(Flat(t)) && Apart(t) && AllUnder(Pnos(t), f.pageCnt))
  }

  ghost function EntriesOf(f: File): seq<Ent> { if f.root.None? then [] else Flat(f.root.v) }

  datatype Outcome = Now(f: File) | Refused | Duplicated | Absent

  /** Insertion. What comes up to the root, or the first entry of all, goes to a new root page. */
  ghost function Inserted(f: File, x: Ent): Outcome
    requires Sound(f)
  {
    if f.root.None? then Now(f.(root := Some(Leaf(f.pageCnt, [x])), pageCnt := f.pageCnt + 1))
    else match Ins(f.root.v, x, f.unique, f.cap, f.pageCnt)
      case Duplicate => Duplicated
      case Invalid => Refused
      case Done(t, next) => Now(f.(root := Some(t), pageCnt := next))
      case Split(l, up, q, next) => Now(f.(root := Some(Node(next, [l, q], [up])), pageCnt := next + 1))
  }

  /** The insertion is going to be refused with INVALID_ENTRY (see BTree.Meets0). */
  ghost predicate Refuses(f: File, x: Ent)
    requires Sound(f)
  {
    f.root.Some? && !Taken(Flat(f.root.v), x, f.unique) && Meets0(f.root.v, x, f.unique, f.cap)
  }

  /** Everything module BTree knows about one insertion. */
  lemma InsFacts(t: Tree, x: Ent, unique: bool, cap: nat, pageCnt: nat)
    requires RootWF(t, cap) && 2 <= cap && Sorted(Flat(t)) && 0 < x.recno && 0 < pageCnt
    requires Apart(t) && AllUnder(Pnos(t), pageCnt)
    ensures var res := Ins(t, x, unique, cap, pageCnt);
            && (res == Duplicate <==> Taken(Flat(t), x, unique))
            && (res == Invalid <==> !Taken(Flat(t), x, unique) && Meets0(t, x, unique, cap))
            && (SepsNumbered(t) ==> ResultNumbered(res))
            && ResultApart(res, t, pageCnt) && ResultWF(res, cap)
            && (res.Done? || res.Split? ==>
                 && pageCnt <= res.next
                 && ResultFlat(res) == InsertSorted(Flat(t), x) && Sorted(InsertSorted(Flat(t), x)))
  {
    InsCorrect(t, x, unique, cap, pageCnt);
    InvalidExactly(t, x, unique, cap, pageCnt);
    if SepsNumbered(t) {
      NumberedNeverInvalid(t, x, unique, cap, pageCnt);
    }
    InsKeepsApart(t, x, unique, cap, pageCnt);
    InsKeepsWF(t, x, unique, cap, pageCnt);
    InsNext(t, x, unique, cap, pageCnt);
    if !Taken(Flat(t), x, unique) {
      assert x !in Flat(t);
      InsertKeepsSorted(Flat(t), x);
    }
  }

  /** The tree after the root page itself has split: a new root with one separator. */
  lemma NewRoot(l: Tree, up: Ent, q: Tree, cap: nat, pno: nat)
    requires 2 <= cap && 0 < pno && WF(l, cap) && WF(q, cap) && up.key == Last(l).key
    requires Apart(l) && Apart(q) && Pnos(l) !! Pnos(q) && AllUnder(Pnos(l) + Pnos(q), pno)
    ensures var t := Node(pno, [l, q], [up]);
            WF(t, cap) && Apart(t) && AllUnder(Pnos(t), pno + 1) && Flat(t) == Flat(l) + Flat(q)
  {
    FlatPair(l, q);
    PairApart([], l, q, []);
    assert [] + [l, q] + [] == [l, q];
  }

  /** An insertion fails exactly as InsFacts has it; else its entry is among the others. */
  lemma InsertedIs(f: File, x: Ent)
    requires Sound(f) && 0 < x.recno
    ensures var o := Inserted(f, x);
            && o != Absent && (o == Duplicated <==> Taken(EntriesOf(f), x, f.unique))
                && (o == Refused <==> Refuses(f, x))
            && (o.Now? ==> Sound(o.f) && o.f.cap == f.cap && o.f.unique == f.unique
                           && EntriesOf(o.f) == InsertSorted(EntriesOf(f), x))
  {
    if f.root.Some? {
      InsFacts(f.root.v, x, f.unique, f.cap, f.pageCnt);
      var res := Ins(f.root.v, x, f.unique, f.cap, f.pageCnt);
      if res.Split? { NewRoot(res.left, res.up, res.right, f.cap, res.next); }
    }
  }

  /** Deletion. With the last entry the whole file goes but its header. */
  ghost function Deleted(f: File, x: Ent): Outcome
    requires Sound(f)
  {
    if f.root.None? then Absent
    else match Del(f.root.v, x, f.cap)
      case Missing => Absent
      case Gone => Now(f.(root := None, pageCnt := 1))
      case Orphan(u) => Now(f.(root := Some(u)))
      case Kept(t) => Now(f.(root := Some(t)))
  }

  lemma DelFacts(t: Tree, x: Ent, cap: nat)
    requires RootWF(t, cap) && Sorted(Flat(t)) && Apart(t)
    ensures DelDelivers(Del(t, x, cap), Flat(t), x)
    ensures var res := Del(t, x, cap);
            res.Orphan? || res.Kept? ==>
              && WF(Rest(res), cap) && Apart(Rest(res)) && Pnos(Rest(res)) <= Pnos(t) && Sorted(Flat(Rest(res)))
              && Rest(res).pno in Pnos(Rest(res)) && (res.Kept? ==> res.t.pno == t.pno)
    ensures Del(t, x, cap) == Gone ==> Remove(Flat(t), x) == []
  {
    DelCorrect(t, x, cap);
    DelKeepsWF(t, x, cap);
    DelKeepsApart(t, x, cap);
    if Present(Flat(t), x) {
      RemoveKeepsSorted(Flat(t), x);
    }
  }

  /** A deletion fails exactly if its entry is not there; else the others are left. */
  lemma DeletedIs(f: File, x: Ent)
    requires Sound(f)
    ensures var o := Deleted(f, x);
            && (if Present(EntriesOf(f), x) then o.Now? else o == Absent)
            && (o.Now? ==> Sound(o.f) && o.f.cap == f.cap && o.f.unique == f.unique
                           && EntriesOf(o.f) == Remove(EntriesOf(f), x))
  {
    if f.root.Some? { DelFacts(f.root.v, x, f.cap); }
  }

  /** A record's old key gives way to its new one; NULL is not in the index, and equal keys leave
      it alone. With UNIQUE on, a new key that is there already is left out. */
  ghost function Changed(f: File, recno: nat, oldKey: Option<int>, newKey: Option<int>): Outcome
    requires Sound(f)
  {
    if oldKey.Some? && oldKey == newKey then Now(f)
    else
      var o := Dropped(f, recno, oldKey);
      if !o.Now? || newKey.None? then o
      else match Inserted(o.f, Ent(newKey.v, recno))
        case Duplicated => o
        case r => r
  }

  ghost function Dropped(f: File, recno: nat, oldKey: Option<int>): (o: Outcome)
    requires Sound(f)
    ensures o.Now? ==> Sound(o.f)
  {
    if oldKey.None? then Now(f) else DeletedIs(f, Ent(oldKey.v, recno)); Deleted(f, Ent(oldKey.v, recno))
  }

  /** The change of key is going to be refused: the insertion of the new entry into what is left
      when the old one is out. */
  ghost predicate RefusesChange(f: File, recno: nat, oldKey: Option<int>, newKey: Option<int>)
    requires Sound(f)
  {
    newKey.Some? && newKey != oldKey
    && var o := Dropped(f, recno, oldKey); o.Now? && Refuses(o.f, Ent(newKey.v, recno))
  }

  /** The old entry that a change of key is to take out is not in the index. */
  ghost predicate Misses(f: File, recno: nat, oldKey: Option<int>, newKey: Option<int>) {
    oldKey.Some? && newKey != oldKey && !Present(EntriesOf(f), Ent(oldKey.v, recno))
  }

  /** The entries without the old one, if it has to go. */
  ghost function Without(s: seq<Ent>, oldKey: Option<int>, newKey: Option<int>, recno: nat): seq<Ent> {
    if oldKey.Some? && oldKey != newKey && Present(s, Ent(oldKey.v, recno)) then Remove(s, Ent(oldKey.v, recno)) else s
  }

  /** What replacing a record's old key by its new one makes of the entries. */
  ghost function Replaced(s: seq<Ent>, oldKey: Option<int>, newKey: Option<int>, recno: nat, unique: bool): seq<Ent>
  {
    var s1 := Without(s, oldKey, newKey, recno);
    if newKey.None? || newKey == oldKey || Taken(s1, Ent(newKey.v, recno), unique) then s1
    else InsertSorted(s1, Ent(newKey.v, recno))
  }

  lemma DroppedIs(f: File, recno: nat, oldKey: Option<int>, newKey: Option<int>)
    requires Sound(f) && (oldKey.None? || newKey != oldKey)
    ensures var o := Dropped(f, recno, oldKey);
            && (o == Absent <==> Misses(f, recno, oldKey, newKey)) && (o == Absent || o.Now?)
            && (o.Now? ==> o.f.cap == f.cap && o.f.unique == f.unique
                           && EntriesOf(o.f) == Without(EntriesOf(f), oldKey, newKey, recno))
  {
    if oldKey.Some? { DeletedIs(f, Ent(oldKey.v, recno)); }
  }

  /** A change of key fails exactly if the old entry is not there, or the new one is refused. */
  lemma ChangedIs(f: File, recno: nat, oldKey: Option<int>, newKey: Option<int>)
    requires Sound(f) && 0 < recno
    ensures var o := Changed(f, recno, oldKey, newKey);
            && o != Duplicated && (o == Absent <==> Misses(f, recno, oldKey, newKey))
            && (o == Refused <==> RefusesChange(f, recno, oldKey, newKey))
            && (o.Now? ==> Sound(o.f) && o.f.cap == f.cap && o.f.unique == f.unique
                           && EntriesOf(o.f) == Replaced(EntriesOf(f), oldKey, newKey, recno, f.unique))
  {
    if oldKey.None? || newKey != oldKey {
      DroppedIs(f, recno, oldKey, newKey);
      var o := Dropped(f, recno, oldKey);
      if o.Now? && newKey.Some? {
        InsertedIs(o.f, Ent(newKey.v, recno));
      }
    }
  }
}
