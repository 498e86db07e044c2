/** Index pages in memory: a buffer with a fixed number of slots, and the primitives that move
    entries between slots. A slot is a record number and key with the page pointer on its left;
    the pointer right of the last entry sits in the slot after it. */
module Pages {
  import opened Entries

  datatype Slot = Slot(pno: nat, recno: nat, key: int)

  function Rec(s: Slot): Ent { Ent(s.key, s.recno) }

  /** What a page shows to readers that stay within entry_cnt: the entries and, one more, the
      page pointers around them. */
  datatype Image = Image(ents: seq<Ent>, ptrs: seq<nat>)

  ghost predicate ShowsEnts(s: seq<Slot>, es: seq<Ent>) {
    |es| <= |s| && forall i :: 0 <= i < |es| ==> Rec(s[i]) == es[i]
  }

  ghost predicate ShowsPtrs(s: seq<Slot>, ps: seq<nat>) {
    |ps| <= |s| && forall i :: 0 <= i < |ps| ==> s[i].pno == ps[i]
  }

  /** s with x put in at position r. */
  function Put<T>(s: seq<T>, r: nat, x: T): (t: seq<T>)
    requires r <= |s|
    ensures |t| == |s| + 1
    ensures forall i :: 0 <= i < |t| ==> t[i] == if i < r then s[i] else if i == r then x else s[i - 1]
  {
    s[..r] + [x] + s[r..]
  }

  /** s without the element at position r. */
  function Cut<T>(s: seq<T>, r: nat): (t: seq<T>)
    requires r < |s|
    ensures |t| == |s| - 1
    ensures forall i :: 0 <= i < |t| ==> t[i] == if i < r then s[i] else s[i + 1]
  {
    s[..r] + s[r + 1..]
  }

  class PageBuf {
    var cnt: nat
    const slot: array<Slot>

    ghost predicate Holds(img: Image)
      reads this, slot
    {
      && cnt == |img.ents| && |img.ptrs| == cnt + 1
      && ShowsEnts(slot[..], img.ents) && ShowsPtrs(slot[..], img.ptrs)
    }

    /** A page read from the file; past its entries the buffer holds whatever it held. */
    constructor Read(img: Image, cap: nat)
      requires |img.ptrs| == |img.ents| + 1 <= cap + 1
      ensures Holds(img) && slot.Length == cap + 1 && fresh(slot)
    {
      slot := new Slot[cap + 1];
      cnt := |img.ents|;
      new;
      for i := 0 to cnt
        invariant cnt == |img.ents|
        invariant forall j :: 0 <= j < i ==> slot[j] == Slot(img.ptrs[j], img.ents[j].recno, img.ents[j].key)
      {
        slot[i] := Slot(img.ptrs[i], img.ents[i].recno, img.ents[i].key);
      }
      slot[cnt] := Slot(img.ptrs[cnt], 0, 0);
    }

    /** A page past the end of the file: all zero. */
    constructor Blank(cap: nat)
      ensures Holds(Image([], [0])) && slot.Length == cap + 1 && fresh(slot)
    {
      slot := new Slot[cap + 1](_ => Slot(0, 0, 0));
      cnt := 0;
    }

    method ToImage() returns (img: Image)
      requires cnt < slot.Length
      ensures Holds(img)
    {
      var es, ps := [], [];
      for i := 0 to cnt
        invariant |es| == |ps| == i
        invariant forall j :: 0 <= j < i ==> es[j] == Rec(slot[j]) && ps[j] == slot[j].pno
      {
        es, ps := es + [Rec(slot[i])], ps + [slot[i].pno];
      }
      img := Image(es, ps + [slot[cnt].pno]);
    }

    method PutPageno(i: nat, pno: nat)
      requires i <= cnt < slot.Length
      modifies slot
      ensures slot[..] == old(slot[..])[i := old(slot[i]).(pno := pno)]
    {
      slot[i] := slot[i].(pno := pno);
    }
  }

  ghost predicate SameRec(a: Slot, b: Slot) { a.recno == b.recno && a.key == b.key }

  /** Copy record number, key and right-hand pointer of entry e1 of p over entry e2 of q. */
  method MoveEntry(p: PageBuf, e1: nat, q: PageBuf, e2: nat)
    requires e1 + 1 <= p.cnt < p.slot.Length && e2 + 1 <= q.cnt < q.slot.Length
    modifies q.slot
    ensures forall j :: 0 <= j < q.slot.Length ==>
      && SameRec(q.slot[j], if j == e2 then old(p.slot[e1]) else old(q.slot[j]))
      && q.slot[j].pno == if j == e2 + 1 then old(p.slot[e1 + 1].pno) else old(q.slot[j].pno)
  {
    q.slot[e2 + 1] := q.slot[e2 + 1].(pno := p.slot[e1 + 1].pno);
    q.slot[e2] := q.slot[e2].(recno := p.slot[e1].recno, key := p.slot[e1].key);
  }

  /** Put target's record number and key at entry r and its page number right of them. The
      entry is refused when a leaf gets no record number or a non-leaf page no page number;
      a page without a first pointer counts as a leaf. */
  method InsertEntry(p: PageBuf, r: nat, target: Slot) returns (ok: bool, leaf: bool)
    requires r + 1 <= p.cnt < p.slot.Length
    modifies p.slot
    ensures leaf <==> old(p.slot[0].pno) == 0
    ensures ok <==> if leaf then target.recno != 0 else target.pno != 0
    ensures !ok ==> p.slot[..] == old(p.slot[..])
    ensures ok ==> forall j :: 0 <= j < p.slot.Length ==>
      && SameRec(p.slot[j], if j == r then target else old(p.slot[j]))
      && p.slot[j].pno == if j == r + 1 then target.pno else old(p.slot[j].pno)
  {
    leaf := p.slot[0].pno == 0;
    ok := if leaf then target.recno != 0 else target.pno != 0;
    if ok {
      p.slot[r] := p.slot[r].(recno := target.recno, key := target.key);
      p.slot[r + 1] := p.slot[r + 1].(pno := target.pno);
    }
  }

  /** The page with an entry put in at r and a pointer right of it. */
  ghost function Widened(img: Image, r: nat, target: Slot): Image
    requires r <= |img.ents| && |img.ptrs| == |img.ents| + 1
  {
    Image(Put(img.ents, r, Rec(target)), Put(img.ptrs, r + 1, target.pno))
  }

  /** Open a gap at r, moving entries right one slot each, last first. */
  method OpenGap(p: PageBuf, r: nat, hi: nat)
    requires r <= hi < p.cnt < p.slot.Length
    modifies p.slot
    ensures forall j :: 0 <= j < p.slot.Length ==>
      && (j != r ==> SameRec(p.slot[j], old(p.slot[if r < j <= hi then j - 1 else j])))
      && (j != r + 1 ==> p.slot[j].pno == old(p.slot[if r + 1 < j <= hi + 1 then j - 1 else j].pno))
  {
    var i := hi;
    while i > r
      invariant r <= i <= hi
      invariant forall j :: 0 <= j < p.slot.Length ==>
        && (j != i ==> SameRec(p.slot[j], old(p.slot[if i < j <= hi then j - 1 else j])))
        && (j == i ==> SameRec(p.slot[j], old(p.slot[j])))
        && (j != i + 1 ==> p.slot[j].pno == old(p.slot[if i + 1 < j <= hi + 1 then j - 1 else j].pno))
        && (j == i + 1 ==> p.slot[j].pno == old(p.slot[j].pno))
    {
      MoveEntry(p, i - 1, p, i);
      i := i - 1;
    }
  }

  /** A page with room takes the entry in place. */
  method InsertWithRoom(p: PageBuf, r: nat, target: Slot, ghost img: Image) returns (ok: bool, leaf: bool)
    requires p.Holds(img) && r <= p.cnt && p.cnt + 1 < p.slot.Length
    modifies p, p.slot
    ensures leaf <==> img.ptrs[0] == 0
    ensures ok <==> if leaf then target.recno != 0 else target.pno != 0
    ensures ok ==> p.Holds(Widened(img, r, target))
  {
    p.cnt := p.cnt + 1;
    OpenGap(p, r, p.cnt - 1);
    ok, leaf := InsertEntry(p, r, target);
    if ok {
      WidenedShown(old(p.slot[..]), p.slot[..], img, r, target);
    }
  }

  lemma WidenedShown(s: seq<Slot>, s': seq<Slot>, img: Image, r: nat, target: Slot)
    requires ShowsEnts(s, img.ents) && ShowsPtrs(s, img.ptrs) && |s| == |s'|
    requires |img.ptrs| == |img.ents| + 1 < |s| && r <= |img.ents|
    requires forall j {:trigger s'[j]} :: 0 <= j <= |img.ents| ==>
               SameRec(s'[j], if j == r then target else if j < r then s[j] else s[j - 1])
    requires forall j {:trigger s'[j]} :: 0 <= j <= |img.ents| + 1 ==>
               s'[j].pno == if j == r + 1 then target.pno else if j <= r then s[j].pno else s[j - 1].pno
    ensures var w := Widened(img, r, target); ShowsEnts(s', w.ents) && ShowsPtrs(s', w.ptrs)
  {
    var w := Widened(img, r, target);
    forall i | 0 <= i < |w.ents| ensures Rec(s'[i]) == w.ents[i] {
      assert SameRec(s'[i], if i == r then target else if i < r then s[i] else s[i - 1]);
      assert i < r ==> Rec(s[i]) == img.ents[i];
      assert i > r ==> Rec(s[i - 1]) == img.ents[i - 1];
    }
    forall i | 0 <= i < |w.ptrs| ensures s'[i].pno == w.ptrs[i] {
      assert s'[i].pno == if i == r + 1 then target.pno else if i <= r then s[i].pno else s[i - 1].pno;
      assert i <= r ==> s[i].pno == img.ptrs[i];
      assert i > r + 1 ==> s[i - 1].pno == img.ptrs[i - 1];
    }
  }

  /** Take entry r and, for the last position, the pointer right of it out of the page. */
  ghost function Narrowed(img: Image, r: nat): Image
    requires 1 <= |img.ents| && r <= |img.ents| && |img.ptrs| == |img.ents| + 1
  {
    Image(Cut(img.ents, if r < |img.ents| then r else r - 1), Cut(img.ptrs, r))
  }

  lemma NarrowedShown(s: seq<Slot>, s': seq<Slot>, img: Image, r: nat)
    requires ShowsEnts(s, img.ents) && ShowsPtrs(s, img.ptrs) && |s| == |s'|
    requires |img.ptrs| == |img.ents| + 1 && 1 <= |img.ents| && r <= |img.ents|
    requires forall j {:trigger s'[j]} :: 0 <= j < |img.ents| - 1 ==> SameRec(s'[j], if j < r then s[j] else s[j + 1])
    requires forall j {:trigger s'[j]} :: 0 <= j < |img.ents| ==> s'[j].pno == if j < r then s[j].pno else s[j + 1].pno
    ensures var w := Narrowed(img, r); ShowsEnts(s', w.ents) && ShowsPtrs(s', w.ptrs)
  {
    var w := Narrowed(img, r);
    forall i | 0 <= i < |w.ents| ensures Rec(s'[i]) == w.ents[i] {
      assert SameRec(s'[i], if i < r then s[i] else s[i + 1]);
      assert Rec(s[if i < r then i else i + 1]) == img.ents[if i < r then i else i + 1];
    }
    forall i | 0 <= i < |w.ptrs| ensures s'[i].pno == w.ptrs[i] {
      assert s'[i].pno == if i < r then s[i].pno else s[i + 1].pno;
      assert s[if i < r then i else i + 1].pno == img.ptrs[if i < r then i else i + 1];
    }
  }

  /** Move the entries right of r left by one slot each, first first. */
  method CloseGap(p: PageBuf, r: nat)
    requires r < p.cnt < p.slot.Length
    modifies p.slot
    ensures forall j :: 0 <= j < p.cnt - 1 ==> SameRec(p.slot[j], old(p.slot[if j < r then j else j + 1]))
    ensures forall j :: 0 <= j < p.cnt && j != r ==> p.slot[j].pno == old(p.slot[if j < r then j else j + 1].pno)
  {
    var e := r;
    while e < p.cnt - 1
      invariant r <= e <= p.cnt - 1
      invariant forall j :: 0 <= j < p.slot.Length ==>
        && SameRec(p.slot[j], old(p.slot[if r <= j < e then j + 1 else j]))
        && (j != r ==> p.slot[j].pno == old(p.slot[if r < j <= e then j + 1 else j].pno))
    {
      MoveEntry(p, e + 1, p, e);
      e := e + 1;
    }
  }

  /** Take entry r out of the page together with the page pointer of child r. */
  method RemoveEntry(p: PageBuf, r: nat, ghost img: Image)
    requires p.Holds(img) && 1 <= p.cnt < p.slot.Length && r <= p.cnt
    modifies p, p.slot
    ensures p.Holds(Narrowed(img, r))
  {
    if r < p.cnt {
      var npno := p.slot[r + 1].pno;
      CloseGap(p, r);
      p.PutPageno(r, npno);
    }
    p.cnt := p.cnt - 1;
    NarrowedShown(old(p.slot[..]), p.slot[..], img, r);
  }

  // ---------------------------------------------------------------- splitting a full page

  /** p shows the first n + 1 entries and n + 2 pointers of w, q all the later entries and, from
      its second one on, their pointers. */
  ghost predicate Parted(p: seq<Slot>, q: seq<Slot>, w: Image, n: nat)
  {
    && n + 1 < |p| && |w.ents| - n <= |q| && |w.ptrs| == |w.ents| + 1 && n + 1 <= |w.ents|
    && (forall i {:trigger p[i]} :: 0 <= i <= n ==> Rec(p[i]) == w.ents[i])
    && (forall i {:trigger p[i]} :: 0 <= i <= n + 1 ==> p[i].pno == w.ptrs[i])
    && (forall i {:trigger q[i]} :: 0 <= i < |w.ents| - n - 1 ==> Rec(q[i]) == w.ents[n + 1 + i])
    && (forall i {:trigger q[i]} :: 1 <= i < |w.ents| - n ==> q[i].pno == w.ptrs[n + 1 + i])
  }

  /** Copy the entries of p from lo on to the slots of q from at on. */
  method CopyEntries(p: PageBuf, lo: nat, hi: nat, q: PageBuf, at: nat)
    requires p != q && p.slot != q.slot
    requires lo <= hi <= p.cnt < p.slot.Length && at + (hi - lo) <= q.cnt < q.slot.Length
    modifies q.slot
    ensures forall j {:trigger q.slot[j]} :: 0 <= j < q.slot.Length ==>
      SameRec(q.slot[j], if at <= j < at + hi - lo then p.slot[lo + j - at] else old(q.slot[j]))
    ensures forall j {:trigger q.slot[j]} :: 0 <= j < q.slot.Length ==>
      q.slot[j].pno == if at < j <= at + hi - lo then p.slot[lo + j - at].pno else old(q.slot[j].pno)
  {
    var i := lo;
    while i < hi
      invariant lo <= i <= hi
      invariant forall j {:trigger q.slot[j]} :: 0 <= j < q.slot.Length ==>
        SameRec(q.slot[j], if at <= j < at + i - lo then p.slot[lo + j - at] else old(q.slot[j]))
      invariant forall j {:trigger q.slot[j]} :: 0 <= j < q.slot.Length ==>
        q.slot[j].pno == if at < j <= at + i - lo then p.slot[lo + j - at].pno else old(q.slot[j].pno)
    {
      MoveEntry(p, i, q, at + i - lo);
      i := i + 1;
    }
  }

  /** The entry belongs left of the middle: the upper half moves out, then the gap opens. */
  method SplitLow(p: PageBuf, q: PageBuf, r: nat, target: Slot, ghost img: Image) returns (ok: bool, leaf: bool)
    requires p != q && p.slot != q.slot && p.Holds(img) && 2 <= p.cnt < p.slot.Length
    requires q.cnt == p.cnt - p.cnt / 2 < q.slot.Length && r < p.cnt / 2
    modifies p.slot, q.slot
    ensures leaf <==> img.ptrs[0] == 0
    ensures ok <==> if leaf then target.recno != 0 else target.pno != 0
    ensures ok ==> Parted(p.slot[..], q.slot[..], Widened(img, r, target), p.cnt / 2)
    ensures q.slot[0].pno == old(q.slot[0].pno)
  {
    var e, n := p.cnt, p.cnt / 2;
    CopyEntries(p, n, e, q, 0);
    OpenGap(p, r, n);
    ok, leaf := InsertEntry(p, r, target);
    if ok {
      LowParted(old(p.slot[..]), p.slot[..], q.slot[..], img, r, target);
    }
  }

  lemma LowParted(s: seq<Slot>, p: seq<Slot>, q: seq<Slot>, img: Image, r: nat, target: Slot)
    requires ShowsEnts(s, img.ents) && ShowsPtrs(s, img.ptrs) && |s| == |p|
    requires |img.ptrs| == |img.ents| + 1 && 2 <= |img.ents| && r < |img.ents| / 2
    requires |img.ents| - |img.ents| / 2 + 1 <= |q|
    requires forall j {:trigger p[j]} :: 0 <= j <= |img.ents| / 2 ==>
               SameRec(p[j], if j == r then target else if j < r then s[j] else s[j - 1])
    requires forall j {:trigger p[j]} :: 0 <= j <= |img.ents| / 2 + 1 ==>
               p[j].pno == if j == r + 1 then target.pno else if j <= r then s[j].pno else s[j - 1].pno
    requires forall j {:trigger q[j]} :: 0 <= j < |img.ents| - |img.ents| / 2 ==>
               SameRec(q[j], s[|img.ents| / 2 + j])
    requires forall j {:trigger q[j]} :: 1 <= j <= |img.ents| - |img.ents| / 2 ==>
               q[j].pno == s[|img.ents| / 2 + j].pno
    ensures Parted(p, q, Widened(img, r, target), |img.ents| / 2)
  {
  }

  /** The entry becomes the middle one. */
  method SplitMiddle(p: PageBuf, q: PageBuf, target: Slot, ghost img: Image) returns (ok: bool, leaf: bool)
    requires p != q && p.slot != q.slot && p.Holds(img) && 2 <= p.cnt < p.slot.Length
    requires q.cnt == p.cnt - p.cnt / 2 < q.slot.Length
    modifies p.slot, q.slot
    ensures leaf <==> img.ptrs[0] == 0
    ensures ok <==> if leaf then target.recno != 0 else target.pno != 0
    ensures ok ==> Parted(p.slot[..], q.slot[..], Widened(img, p.cnt / 2, target), p.cnt / 2)
    ensures q.slot[0].pno == old(q.slot[0].pno)
  {
    var e, n := p.cnt, p.cnt / 2;
    CopyEntries(p, n, e, q, 0);
    ok, leaf := InsertEntry(p, n, target);
    if ok {
      MiddleParted(old(p.slot[..]), p.slot[..], q.slot[..], img, target);
    }
  }

  lemma MiddleParted(s: seq<Slot>, p: seq<Slot>, q: seq<Slot>, img: Image, target: Slot)
    requires ShowsEnts(s, img.ents) && ShowsPtrs(s, img.ptrs) && |s| == |p|
    requires |img.ptrs| == |img.ents| + 1 && 2 <= |img.ents|
    requires |img.ents| - |img.ents| / 2 + 1 <= |q|
    requires forall j {:trigger p[j]} :: 0 <= j <= |img.ents| / 2 ==>
               SameRec(p[j], if j == |img.ents| / 2 then target else s[j])
    requires forall j {:trigger p[j]} :: 0 <= j <= |img.ents| / 2 + 1 ==>
               p[j].pno == if j == |img.ents| / 2 + 1 then target.pno else s[j].pno
    requires forall j {:trigger q[j]} :: 0 <= j < |img.ents| - |img.ents| / 2 ==>
               SameRec(q[j], s[|img.ents| / 2 + j])
    requires forall j {:trigger q[j]} :: 1 <= j <= |img.ents| - |img.ents| / 2 ==>
               q[j].pno == s[|img.ents| / 2 + j].pno
    ensures Parted(p, q, Widened(img, |img.ents| / 2, target), |img.ents| / 2)
  {
  }

  /** The entry belongs right of the middle: it goes straight to the new page. That page has no
      first pointer yet, so insert_entry takes it for a leaf whatever p is. */
  method SplitHigh(p: PageBuf, q: PageBuf, r: nat, target: Slot, ghost img: Image) returns (ok: bool, leaf: bool)
    requires p != q && p.slot != q.slot && p.Holds(img) && 2 <= p.cnt < p.slot.Length
    requires q.cnt == p.cnt - p.cnt / 2 < q.slot.Length && p.cnt / 2 < r <= p.cnt
    requires q.slot[0].pno == 0
    modifies q.slot
    ensures leaf && (ok <==> target.recno != 0)
    ensures ok ==> Parted(p.slot[..], q.slot[..], Widened(img, r, target), p.cnt / 2)
    ensures q.slot[0].pno == 0
  {
    var e, n := p.cnt, p.cnt / 2;
    CopyEntries(p, n + 1, r, q, 0);
    ok, leaf := InsertEntry(q, r - n - 1, target);
    if ok {
      CopyEntries(p, r, e, q, r - n);
      HighParted(p.slot[..], q.slot[..], img, r, target);
    }
  }

  lemma HighParted(p: seq<Slot>, q: seq<Slot>, img: Image, r: nat, target: Slot)
    requires ShowsEnts(p, img.ents) && ShowsPtrs(p, img.ptrs)
    requires |img.ptrs| == |img.ents| + 1 && 2 <= |img.ents| && |img.ents| / 2 < r <= |img.ents|
    requires |img.ents| - |img.ents| / 2 + 1 <= |q|
    requires forall j {:trigger q[j]} :: 0 <= j < |img.ents| - |img.ents| / 2 ==>
               SameRec(q[j], var i := |img.ents| / 2 + 1 + j;
                             if i == r then target else if i < r then p[i] else p[i - 1])
    requires forall j {:trigger q[j]} :: 1 <= j <= |img.ents| - |img.ents| / 2 ==>
               q[j].pno == var i := |img.ents| / 2 + 1 + j;
                           if i == r + 1 then target.pno else if i <= r then p[i].pno else p[i - 1].pno
    ensures Parted(p, q, Widened(img, r, target), |img.ents| / 2)
  {
    var w, n := Widened(img, r, target), |img.ents| / 2;
    assert forall i {:trigger p[i]} :: 0 <= i <= n ==> Rec(p[i]) == w.ents[i];
    assert forall i {:trigger p[i]} :: 0 <= i <= n + 1 ==> p[i].pno == w.ptrs[i];
    assert forall i {:trigger q[i]} :: 0 <= i < |w.ents| - n - 1 ==> Rec(q[i]) == w.ents[n + 1 + i];
  }

  /** Spread the entries of a full page and the new one over p and q; the middle entry goes up. */
  method SpreadOut(p: PageBuf, q: PageBuf, r: nat, target: Slot, ghost img: Image)
    returns (ok: bool, up: Slot, leaf: bool)
    requires p != q && p.slot != q.slot && p.Holds(img) && 2 <= p.cnt < p.slot.Length
    requires q.cnt == p.cnt - p.cnt / 2 < q.slot.Length && q.slot[0].pno == 0 && r <= p.cnt
    modifies p.slot, q.slot
    ensures ok <==> if r > |img.ents| / 2 || img.ptrs[0] == 0 then target.recno != 0 else target.pno != 0
    ensures ok ==> Parted(p.slot[..], q.slot[..], Widened(img, r, target), |img.ents| / 2)
    ensures ok ==> Rec(up) == Widened(img, r, target).ents[|img.ents| / 2]
    ensures ok ==> q.slot[0].pno == 0
  {
    var n := p.cnt / 2;
    up := target;
    if r == n {
      ok, leaf := SplitMiddle(p, q, target, img);
    } else {
      if r < n {
        ok, leaf := SplitLow(p, q, r, target, img);
      } else {
        ok, leaf := SplitHigh(p, q, r, target, img);
      }
      up := Slot(up.pno, p.slot[n].recno, p.slot[n].key);
      assert ok ==> Rec(p.slot[..][n]) == Widened(img, r, target).ents[n];
    }
  }

  /** What the two halves of an overfull page w show once it is cut after entry n. */
  ghost function LeftHalf(w: Image, n: nat): Image
    requires n < |w.ents| && |w.ptrs| == |w.ents| + 1
  {
    var m := if w.ptrs[0] == 0 then n + 1 else n;
    Image(w.ents[..m], w.ptrs[..m + 1])
  }

  ghost function RightHalf(w: Image, n: nat): Image
    requires n < |w.ents| && |w.ptrs| == |w.ents| + 1
  {
    Image(w.ents[n + 1..], w.ptrs[n + 1..])
  }

  /** Cut a full page in two around the new entry. The middle entry goes up; a leaf keeps it
      as its last entry as well, a non-leaf page does not. */
  method SplitPage(p: PageBuf, q: PageBuf, r: nat, target: Slot, ghost img: Image)
    returns (ok: bool, up: Slot, leaf: bool)
    requires p != q && p.slot != q.slot && p.Holds(img) && 2 <= p.cnt < p.slot.Length
    requires q.slot.Length == p.slot.Length && q.slot[0].pno == 0 && r <= p.cnt
    modifies p, q, p.slot, q.slot
    ensures ok <==> if r > |img.ents| / 2 || img.ptrs[0] == 0 then target.recno != 0 else target.pno != 0
    ensures ok ==>
      var w, n := Widened(img, r, target), |img.ents| / 2;
      p.Holds(LeftHalf(w, n)) && q.Holds(RightHalf(w, n)) && Rec(up) == w.ents[n]
  {
    var e, n := p.cnt, p.cnt / 2;
    q.cnt := e - n;
    ok, up, leaf := SpreadOut(p, q, r, target, img);
    if ok {
      ghost var w := Widened(img, r, target);
      ghost var qs := q.slot[..];
      assert p.slot[..][0].pno == w.ptrs[0] && p.slot[..][n + 1].pno == w.ptrs[n + 1];
      q.PutPageno(0, p.slot[n + 1].pno);
      PartedFirst(p.slot[..], qs, q.slot[..], w, n);
      p.cnt := if p.slot[0].pno == 0 then n + 1 else n;
      PartedHolds(p.slot[..], q.slot[..], w, n, p.cnt);
    }
  }

  lemma PartedFirst(p: seq<Slot>, q: seq<Slot>, q': seq<Slot>, w: Image, n: nat)
    requires Parted(p, q, w, n) && |q| > 0 && exists v: nat :: q' == q[0 := q[0].(pno := v)]
    ensures Parted(p, q', w, n)
  {
  }

  lemma PartedHolds(p: seq<Slot>, q: seq<Slot>, w: Image, n: nat, m: nat)
    requires Parted(p, q, w, n) && |q| > 0
    requires q[0].pno == p[n + 1].pno && n <= m <= n + 1
    ensures ShowsEnts(p, w.ents[..m]) && ShowsPtrs(p, w.ptrs[..m + 1])
    ensures ShowsEnts(q, w.ents[n + 1..]) && ShowsPtrs(q, w.ptrs[n + 1..])
  {
  }
}
