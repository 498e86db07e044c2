/** A table with its index files: every store of a record brings the indexes up to date, and an
    index can be built afresh from the table. */
module Table {
  import opened Options
  import opened Entries
  import opened BTree
  import opened Pages
  import opened IndexFile
  import opened IndexOps
  import opened IndexState

  /** The body of a record, that is all of it but the leading marker byte. */
  type Body = seq<char>

  /** An index expression: the key of a record, None when it evaluates to NULL. */
  type KeyExpr = Body -> Option<int>

  /** The entry record number recno should have in an index over expr. */
  ghost predicate Row(e: Ent, expr: KeyExpr, recs: seq<Body>) {
    1 <= e.recno <= |recs| && expr(recs[e.recno - 1]) == Some(e.key)
  }

  /** The entries s are the keys of the records, each with its record number, and nothing else. */
  ghost predicate Mirrors(s: seq<Ent>, expr: KeyExpr, recs: seq<Body>) {
    Sorted(s) && forall e :: e in s <==> Row(e, expr, recs)
  }

  ghost predicate Agrees(ndx: Index, expr: KeyExpr, recs: seq<Body>)
    reads ndx
  {
    ndx.Valid() && !ndx.unique && Mirrors(ndx.Entries(), expr, recs)
  }

  lemma RemoveMembers(s: seq<Ent>, x: Ent)
    requires Sorted(s) && Present(s, x)
    ensures forall e :: e in Remove(s, x) <==> e in s && e != x
  {
    RemoveKeepsSorted(s, x);
    forall e | e in s && e != x ensures e in Remove(s, x) {
      var i :| 0 <= i < |s| && s[i] == e;
      var k := Pos(s, x);
      assert Remove(s, x)[if i < k then i else i - 1] == e;
    }
  }

  lemma InsertMembers(s: seq<Ent>, x: Ent)
    ensures forall e :: e in InsertSorted(s, x) <==> e in s || e == x
  {
    assert s == s[..Pos(s, x)] + s[Pos(s, x)..];
  }

  /** Replacing the entry of one record is what changing that record asks for. */
  lemma ReplacedMirrors(s: seq<Ent>, expr: KeyExpr, recs: seq<Body>, recno: nat, body: Body)
    requires Mirrors(s, expr, recs) && 1 <= recno <= |recs|
    ensures Mirrors(Replaced(s, expr(recs[recno - 1]), expr(body), recno, false), expr, recs[recno - 1 := body])
  {
    var o, n := expr(recs[recno - 1]), expr(body);
    var recs' := recs[recno - 1 := body];
    if o == n {
      assert forall e :: Row(e, expr, recs) <==> Row(e, expr, recs');
    } else {
      var s1 := s;
      if o.Some? {
        var x := Ent(o.v, recno);
        assert Row(x, expr, recs);
        PresentIffMember(s, x);
        RemoveMembers(s, x);
        RemoveKeepsSorted(s, x);
        s1 := Remove(s, x);
      }
      assert forall e :: e in s1 <==> Row(e, expr, recs) && e.recno != recno;
      if n.Some? {
        var y := Ent(n.v, recno);
        InsertMembers(s1, y);
        InsertKeepsSorted(s1, y);
      }
      assert forall e :: Row(e, expr, recs') <==>
        if e.recno == recno then n == Some(e.key) else Row(e, expr, recs);
    }
  }

  /** A new record at the end of the table asks for its entry, if its key is not NULL. */
  lemma AppendedMirrors(s: seq<Ent>, expr: KeyExpr, recs: seq<Body>, body: Body)
    requires Mirrors(s, expr, recs)
    ensures Mirrors(Replaced(s, None, expr(body), |recs| + 1, false), expr, recs + [body])
    ensures forall e :: e in s ==> e.recno != |recs| + 1
  {
    var n, recno := expr(body), |recs| + 1;
    assert forall e :: e in s ==> Row(e, expr, recs);
    assert forall e :: Row(e, expr, recs + [body]) <==>
      if e.recno == recno then n == Some(e.key) else Row(e, expr, recs);
    if n.Some? {
      InsertMembers(s, Ent(n.v, recno));
      InsertKeepsSorted(s, Ent(n.v, recno));
    }
  }

  /** Two sorted runs with the same members are the same run. */
  lemma {:induction false} SortedUnique(s: seq<Ent>, t: seq<Ent>)
    requires Sorted(s) && Sorted(t) && forall e :: e in s <==> e in t
    ensures s == t
    decreases |s|
  {
    assert |t| > 0 ==> t[0] in s;
    assert |s| > 0 ==> s[0] in t;
    if s != [] {
      var i :| 0 <= i < |t| && t[i] == s[0];
      var j :| 0 <= j < |s| && s[j] == t[0];
      assert s[0] == t[0];
      assert forall e :: e in s <==> e == s[0] || e in s[1..];
      assert forall e :: e in t <==> e == t[0] || e in t[1..];
      SortedUnique(s[1..], t[1..]);
    }
  }

  /** Each of the indexes lists exactly the keys of the records. */
  ghost predicate AllAgree(indexes: seq<Index>, exprs: seq<KeyExpr>, recs: seq<Body>)
    requires |indexes| == |exprs|
    reads indexes
  {
    indexes != [] ==> Agrees(indexes[0], exprs[0], recs) && AllAgree(indexes[1..], exprs[1..], recs)
  }

  lemma {:induction false} AllAgreeMeans(indexes: seq<Index>, exprs: seq<KeyExpr>, recs: seq<Body>)
    requires |indexes| == |exprs|
    ensures AllAgree(indexes, exprs, recs) <==>
              forall i :: 0 <= i < |indexes| ==> Agrees(indexes[i], exprs[i], recs)
  {
    if indexes != [] {
      AllAgreeMeans(indexes[1..], exprs[1..], recs);
      assert forall i :: 0 < i < |indexes| ==> indexes[i] == indexes[1..][i - 1] && exprs[i] == exprs[1..][i - 1];
    }
  }

  ghost predicate AllNumbered(indexes: seq<Index>)
    reads indexes
  {
    indexes != [] ==> Numbered(indexes[0]) && AllNumbered(indexes[1..])
  }

  lemma {:induction false} AllAgreeEnd(indexes: seq<Index>, exprs: seq<KeyExpr>, ndx: Index, expr: KeyExpr,
                                       recs: seq<Body>)
    requires |indexes| == |exprs|
    ensures AllAgree(indexes + [ndx], exprs + [expr], recs) <==>
      AllAgree(indexes, exprs, recs) && Agrees(ndx, expr, recs)
    ensures AllNumbered(indexes + [ndx]) <==> AllNumbered(indexes) && Numbered(ndx)
  {
    if indexes != [] {
      AllAgreeEnd(indexes[1..], exprs[1..], ndx, expr, recs);
      assert (indexes + [ndx])[1..] == indexes[1..] + [ndx] && (exprs + [expr])[1..] == exprs[1..] + [expr];
    }
  }

  ghost predicate Separate(indexes: seq<Index>) {
    forall i, j :: 0 <= i < j < |indexes| ==> indexes[i] != indexes[j]
  }

  /** What decides the fate of the indexes, one by one. */
  ghost function Files(indexes: seq<Index>): (fs: seq<File>)
    reads indexes
    ensures |fs| == |indexes| && forall i {:trigger fs[i]} :: 0 <= i < |fs| ==> fs[i] == FileOf(indexes[i])
  {
    if indexes == [] then [] else [FileOf(indexes[0])] + Files(indexes[1..])
  }

  ghost predicate AllSound(files: seq<File>) { forall i {:trigger files[i]} :: 0 <= i < |files| ==> Sound(files[i]) }

  lemma AgreeSound(indexes: seq<Index>, exprs: seq<KeyExpr>, recs: seq<Body>)
    requires |indexes| == |exprs| && AllAgree(indexes, exprs, recs)
    ensures AllSound(Files(indexes))
  {
    AllAgreeMeans(indexes, exprs, recs);
  }

  /** A record that is changed from `was` to `body`, or with !del is new. */
  datatype Change = Change(recno: nat, del: bool, was: Body, body: Body)

  /** What it does to an index over expr. */
  ghost function Updated(f: File, expr: KeyExpr, c: Change): Outcome
    requires Sound(f)
  {
    if c.del then Changed(f, c.recno, expr(c.was), expr(c.body))
    else if expr(c.body).None? then Now(f)
    else Inserted(f, Ent(expr(c.body).v, c.recno))
  }

  /** The index is going to refuse it. */
  ghost predicate Fails(f: File, expr: KeyExpr, c: Change)
    requires Sound(f)
  {
    if c.del then RefusesChange(f, c.recno, expr(c.was), expr(c.body))
    else expr(c.body).Some? && Refuses(f, Ent(expr(c.body).v, c.recno))
  }

  /** What a change that was refused leaves in the file. */
  ghost predicate LeftByChange(pages: map<nat, Image>, rootNo: nat, f: File, expr: KeyExpr, c: Change) {
    Sound(f) && expr(c.body).Some?
    && var o := if c.del then Dropped(f, c.recno, expr(c.was)) else Now(f);
       o.Now? && LeftBehind(pages, rootNo, o.f, Ent(expr(c.body).v, c.recno))
  }

  /** The place of the first of the indexes to refuse, or their number when none does. */
  ghost function FirstRefusal(files: seq<File>, exprs: seq<KeyExpr>, c: Change): (k: nat)
    requires |files| == |exprs| && AllSound(files)
    ensures k <= |files|
  {
    if files == [] || Fails(files[0], exprs[0], c) then 0 else 1 + FirstRefusal(files[1..], exprs[1..], c)
  }

  lemma {:induction false} FirstRefusalMeans(files: seq<File>, exprs: seq<KeyExpr>, c: Change)
    requires |files| == |exprs| && AllSound(files)
    ensures var k := FirstRefusal(files, exprs, c);
      && (forall j :: 0 <= j < k ==> !Fails(files[j], exprs[j], c))
      && (k < |files| ==> Fails(files[k], exprs[k], c))
  {
    if files != [] && !Fails(files[0], exprs[0], c) {
      FirstRefusalMeans(files[1..], exprs[1..], c);
      var k := FirstRefusal(files, exprs, c);
      forall j | 0 <= j < k ensures !Fails(files[j], exprs[j], c) {
        if j > 0 { assert files[j] == files[1..][j - 1] && exprs[j] == exprs[1..][j - 1]; }
      }
    }
  }

  lemma FirstIs(files: seq<File>, exprs: seq<KeyExpr>, c: Change, k: nat)
    requires |files| == |exprs| && AllSound(files) && k <= |files|
    requires forall j :: 0 <= j < k ==> !Fails(files[j], exprs[j], c)
    requires k < |files| ==> Fails(files[k], exprs[k], c)
    ensures FirstRefusal(files, exprs, c) == k
  {
    FirstRefusalMeans(files, exprs, c);
  }

  /** The table before and after the change. */
  ghost predicate Applies(c: Change, before: seq<Body>, recs: seq<Body>) {
    && 1 <= c.recno <= |recs| && c.body == recs[c.recno - 1]
    && if c.del then c.recno <= |before| && recs == before[c.recno - 1 := c.body] && c.was == before[c.recno - 1]
       else recs == before + [c.body] && c.recno == |recs|
  }

  method UpdOne(ndx: Index, expr: KeyExpr, recs: seq<Body>, c: Change, ghost before: seq<Body>) returns (rc: Code)
    requires Applies(c, before, recs) && Agrees(ndx, expr, before)
    modifies ndx
    ensures rc == OK || rc == INVALID_ENTRY
    ensures rc == INVALID_ENTRY <==> old(Fails(FileOf(ndx), expr, c))
    ensures rc == OK ==> Agrees(ndx, expr, recs) && Now(FileOf(ndx)) == old(Updated(FileOf(ndx), expr, c))
    ensures rc == INVALID_ENTRY ==> LeftByChange(ndx.pages, ndx.rootNo, old(FileOf(ndx)), expr, c)
    ensures !c.del && old(Numbered(ndx)) ==> rc == OK && Numbered(ndx)
  {
    ghost var s := ndx.Entries();
    var newKey := expr(c.body);
    if c.del {
      ReplacedMirrors(s, expr, before, c.recno, c.body);
      NothingMissing(s, expr, before, c.recno);
      rc := RemoveOldInsertNew(ndx, c.recno, expr(c.was), newKey);
    } else {
      AppendedMirrors(s, expr, before, c.body);
      if newKey.None? {
        return OK;
      }
      rc := InsertNew(ndx, Slot(0, c.recno, newKey.v));
    }
  }

  lemma NothingMissing(s: seq<Ent>, expr: KeyExpr, recs: seq<Body>, recno: nat)
    requires Mirrors(s, expr, recs) && 1 <= recno <= |recs|
    ensures var key := expr(recs[recno - 1]); key.Some? ==> Present(s, Ent(key.v, recno))
  {
    var key := expr(recs[recno - 1]);
    if key.Some? {
      assert Row(Ent(key.v, recno), expr, recs);
      PresentIffMember(s, Ent(key.v, recno));
    }
  }

  /** Updating one index leaves the others as they are. */
  method UpdApart(ndx: Index, expr: KeyExpr, recs: seq<Body>, c: Change, ghost before: seq<Body>,
                  ghost pre: seq<Index>, ghost preExprs: seq<KeyExpr>, ghost post: seq<Index>,
                      ghost postExprs: seq<KeyExpr>)
    returns (rc: Code)
    requires |pre| == |preExprs| && |post| == |postExprs| && ndx !in pre && ndx !in post && Applies(c, before, recs)
    requires AllAgree(pre, preExprs, recs) && Agrees(ndx, expr, before) && AllAgree(post, postExprs, before)
    modifies ndx
    ensures rc == OK || rc == INVALID_ENTRY
    ensures rc == INVALID_ENTRY <==> old(Fails(FileOf(ndx), expr, c))
    ensures rc == OK ==> Agrees(ndx, expr, recs) && Now(FileOf(ndx)) == old(Updated(FileOf(ndx), expr, c))
    ensures rc == INVALID_ENTRY ==> LeftByChange(ndx.pages, ndx.rootNo, old(FileOf(ndx)), expr, c)
    ensures AllAgree(pre, preExprs, recs) && AllAgree(post, postExprs, before)
    ensures AllNumbered(pre) == old(AllNumbered(pre)) && AllNumbered(post) == old(AllNumbered(post))
    ensures !c.del && old(Numbered(ndx)) ==> rc == OK && Numbered(ndx)
  {
    rc := UpdOne(ndx, expr, recs, c, before);
  }

  lemma Slices(indexes: seq<Index>, exprs: seq<KeyExpr>, i: nat, recs: seq<Body>)
    requires |indexes| == |exprs| && i < |indexes|
    ensures AllAgree(indexes[..i + 1], exprs[..i + 1], recs) <==>
              AllAgree(indexes[..i], exprs[..i], recs) && Agrees(indexes[i], exprs[i], recs)
    ensures AllAgree(indexes[i..], exprs[i..], recs) <==>
              Agrees(indexes[i], exprs[i], recs) && AllAgree(indexes[i + 1..], exprs[i + 1..], recs)
    ensures AllNumbered(indexes[..i + 1]) <==> AllNumbered(indexes[..i]) && Numbered(indexes[i])
    ensures AllNumbered(indexes[i..]) <==> Numbered(indexes[i]) && AllNumbered(indexes[i + 1..])
  {
    assert indexes[i..][0] == indexes[i] && indexes[i..][1..] == indexes[i + 1..];
    assert exprs[i..][0] == exprs[i] && exprs[i..][1..] == exprs[i + 1..];
    AllAgreeEnd(indexes[..i], exprs[..i], indexes[i], exprs[i], recs);
    assert indexes[..i] + [indexes[i]] == indexes[..i + 1] && exprs[..i] + [exprs[i]] == exprs[..i + 1];
  }

  /** The indexes before i have been updated, the others not yet. */
  ghost predicate Halfway(indexes: seq<Index>, exprs: seq<KeyExpr>, i: nat, recs: seq<Body>, before: seq<Body>)
    requires i <= |indexes| == |exprs|
    reads indexes
  {
    AllAgree(indexes[..i], exprs[..i], recs) && AllAgree(indexes[i..], exprs[i..], before)
  }

  /** The files of indexes before i are those that the change makes of them. */
  ghost predicate Followed(was: seq<File>, files: seq<File>, exprs: seq<KeyExpr>, c: Change, i: nat) {
    |was| == |files| == |exprs| && AllSound(was)
    && forall j {:trigger files[j]} :: 0 <= j < i && j < |files| ==> Now(files[j]) == Updated(was[j], exprs[j], c)
  }

  /** The files of indexes from i on are as they were. */
  ghost predicate Untouched(was: seq<File>, files: seq<File>, i: nat) {
    |was| == |files| && forall j {:trigger files[j]} :: i <= j < |files| ==> files[j] == was[j]
  }

  /** Bring the indexes up to date after record recno was written: replace its entry, or for a
      new record just insert one. Stops at the first index that refuses, and fails exactly if
      there is one; those before it have been updated, those after it have not. */
  method UpdNdx(indexes: seq<Index>, exprs: seq<KeyExpr>, recs: seq<Body>, c: Change, ghost before: seq<Body>)
    returns (rc: Code, at: nat)
    requires |indexes| == |exprs| && Separate(indexes) && Applies(c, before, recs)
    requires AllAgree(indexes, exprs, before) && AllSound(Files(indexes))
    modifies indexes
    ensures rc == OK || rc == INVALID_ENTRY
    ensures at == old(FirstRefusal(Files(indexes), exprs, c)) && (rc == INVALID_ENTRY <==> at < |indexes|)
    ensures Stopped(indexes, exprs, at, recs, before, c, old(Files(indexes)))
    ensures rc == OK ==> AllAgree(indexes, exprs, recs)
    ensures !c.del && old(AllNumbered(indexes)) ==> rc == OK && AllNumbered(indexes)
  {
    rc, at := OK, 0;
    ghost var was, numbered := Files(indexes), !c.del && AllNumbered(indexes);
    assert indexes[0..] == indexes && exprs[0..] == exprs;
    while at < |indexes|
      invariant rc == OK && Updating(indexes, exprs, at, recs, before, c, was, numbered)
    {
      rc := UpdStep(indexes, exprs, at, recs, c, before, was, numbered);
      if rc != OK { return; }
      at := at + 1;
    }
    AllFollow(indexes, exprs, recs, before, c, was, numbered);
  }

  /** The indexes before `at` have followed the change, the others are as they were. */
  ghost predicate Updating(indexes: seq<Index>, exprs: seq<KeyExpr>, at: nat, recs: seq<Body>, before: seq<Body>,
                           c: Change, was: seq<File>, numbered: bool)
    reads indexes
  {
    && at <= |indexes| == |exprs| && Halfway(indexes, exprs, at, recs, before)
    && Followed(was, Files(indexes), exprs, c, at) && Untouched(was, Files(indexes), at)
    && (forall j :: 0 <= j < at ==> !Fails(was[j], exprs[j], c))
    && (numbered ==> AllNumbered(indexes[..at]) && AllNumbered(indexes[at..]))
  }

  lemma AllFollow(indexes: seq<Index>, exprs: seq<KeyExpr>, recs: seq<Body>, before: seq<Body>, c: Change,
                  was: seq<File>, numbered: bool)
    requires |indexes| == |exprs| && Updating(indexes, exprs, |indexes|, recs, before, c, was, numbered)
    ensures FirstRefusal(was, exprs, c) == |indexes| && Stopped(indexes, exprs, |indexes|, recs, before, c, was)
    ensures AllAgree(indexes, exprs, recs) && (numbered ==> AllNumbered(indexes))
  {
    FirstIs(was, exprs, c, |indexes|);
    assert indexes[..|indexes|] == indexes && exprs[..|indexes|] == exprs;
  }

  /** One index, unless it refuses. */
  method UpdStep(indexes: seq<Index>, exprs: seq<KeyExpr>, at: nat, recs: seq<Body>, c: Change,
                 ghost before: seq<Body>, ghost was: seq<File>, ghost numbered: bool)
    returns (rc: Code)
    requires at < |indexes| && Separate(indexes) && Applies(c, before, recs) && (numbered ==> !c.del)
    requires Updating(indexes, exprs, at, recs, before, c, was, numbered)
    modifies indexes[at]
    ensures rc == OK || (rc == INVALID_ENTRY && !numbered)
    ensures rc == OK ==> Updating(indexes, exprs, at + 1, recs, before, c, was, numbered)
    ensures rc != OK ==>
      FirstRefusal(was, exprs, c) == at && Stopped(indexes, exprs, at, recs, before, c, was)
  {
    rc := UpdAt(indexes, exprs, at, recs, c, before, was);
    if rc != OK { FirstIs(was, exprs, c, at); }
  }

  /** What an update leaves that stopped at an index, or at none: the indexes before it list the
      records as they are now, those behind it as they were, and in its own file there is what the
      refused insertion left. */
  ghost predicate Stopped(indexes: seq<Index>, exprs: seq<KeyExpr>, at: nat, recs: seq<Body>, before: seq<Body>,
                          c: Change, was: seq<File>)
    reads indexes
  {
    && at <= |indexes| == |exprs|
    && AllAgree(indexes[..at], exprs[..at], recs) && Followed(was, Files(indexes), exprs, c, at)
    && (at < |indexes| ==>
         && AllAgree(indexes[at + 1..], exprs[at + 1..], before) && Untouched(was, Files(indexes), at + 1)
         && LeftByChange(indexes[at].pages, indexes[at].rootNo, was[at], exprs[at], c))
  }

  method UpdAt(indexes: seq<Index>, exprs: seq<KeyExpr>, i: nat, recs: seq<Body>, c: Change, ghost before: seq<Body>,
               ghost was: seq<File>)
    returns (rc: Code)
    requires i < |indexes| == |exprs| && Separate(indexes) && Applies(c, before, recs)
    requires Halfway(indexes, exprs, i, recs, before)
    requires Followed(was, Files(indexes), exprs, c, i) && Untouched(was, Files(indexes), i)
    modifies indexes[i]
    ensures rc == OK || rc == INVALID_ENTRY
    ensures rc == INVALID_ENTRY <==> Fails(was[i], exprs[i], c)
    ensures AllAgree(indexes[..i], exprs[..i], recs) && AllAgree(indexes[i + 1..], exprs[i + 1..], before)
    ensures Followed(was, Files(indexes), exprs, c, i) && Untouched(was, Files(indexes), i + 1)
    ensures rc == OK ==> Halfway(indexes, exprs, i + 1, recs, before) && Followed(was, Files(indexes), exprs, c, i + 1)
    ensures rc != OK ==> LeftByChange(indexes[i].pages, indexes[i].rootNo, was[i], exprs[i], c)
    ensures !c.del && old(AllNumbered(indexes[..i]) && AllNumbered(indexes[i..])) ==>
      rc == OK && AllNumbered(indexes[..i + 1]) && AllNumbered(indexes[i + 1..])
  {
    Slices(indexes, exprs, i, before);
    rc := UpdFiles(indexes, exprs, i, recs, c, before, was);
    Slices(indexes, exprs, i, recs);
  }

  method UpdFiles(indexes: seq<Index>, exprs: seq<KeyExpr>, i: nat, recs: seq<Body>, c: Change,
                  ghost before: seq<Body>, ghost was: seq<File>)
    returns (rc: Code)
    requires i < |indexes| == |exprs| && Separate(indexes) && Applies(c, before, recs)
    requires AllAgree(indexes[..i], exprs[..i], recs) && AllAgree(indexes[i + 1..], exprs[i + 1..], before)
    requires Agrees(indexes[i], exprs[i], before)
    requires Followed(was, Files(indexes), exprs, c, i) && Untouched(was, Files(indexes), i)
    modifies indexes[i]
    ensures rc == OK || rc == INVALID_ENTRY
    ensures rc == INVALID_ENTRY <==> Fails(was[i], exprs[i], c)
    ensures AllAgree(indexes[..i], exprs[..i], recs) && AllAgree(indexes[i + 1..], exprs[i + 1..], before)
    ensures Followed(was, Files(indexes), exprs, c, i) && Untouched(was, Files(indexes), i + 1)
    ensures rc == OK ==> Agrees(indexes[i], exprs[i], recs) && Followed(was, Files(indexes), exprs, c, i + 1)
    ensures rc != OK ==> LeftByChange(indexes[i].pages, indexes[i].rootNo, was[i], exprs[i], c)
    ensures AllNumbered(indexes[..i]) == old(AllNumbered(indexes[..i]))
    ensures AllNumbered(indexes[i + 1..]) == old(AllNumbered(indexes[i + 1..]))
    ensures !c.del && old(Numbered(indexes[i])) ==> rc == OK && Numbered(indexes[i])
  {
    assert indexes[i] !in indexes[..i] && indexes[i] !in indexes[i + 1..];
    ghost var files := Files(indexes);
    assert files[i] == was[i];
    rc := UpdApart(indexes[i], exprs[i], recs, c, before, indexes[..i], exprs[..i], indexes[i + 1..], exprs[i + 1..]);
    OthersStay(was, files, Files(indexes), exprs, c, i);
  }

  /** The files of the other indexes are as they were. */
  lemma OthersStay(was: seq<File>, files: seq<File>, files': seq<File>, exprs: seq<KeyExpr>, c: Change, i: nat)
    requires Followed(was, files, exprs, c, i) && Untouched(was, files, i) && i < |files| == |files'|
    requires forall j {:trigger files'[j]} :: 0 <= j < |files| && j != i ==> files'[j] == files[j]
    ensures Followed(was, files', exprs, c, i) && Untouched(was, files', i + 1)
    ensures Now(files'[i]) == Updated(was[i], exprs[i], c) ==> Followed(was, files', exprs, c, i + 1)
  {
  }

  class Table {
    var recs: seq<Body>
    const indexes: seq<Index>
    const exprs: seq<KeyExpr>

    ghost predicate Shape() {
      |indexes| == |exprs| && Separate(indexes)
    }

    /** Every index lists exactly the keys of the records. */
    ghost predicate InStep()
      reads this, indexes
    {
      Shape() && AllAgree(indexes, exprs, recs)
    }

    ghost function IndexFiles(): (fs: seq<File>)
      requires InStep()
      reads this, indexes
      ensures fs == Files(indexes) && |fs| == |exprs| && AllSound(fs)
    {
      AgreeSound(indexes, exprs, recs);
      Files(indexes)
    }

    /** The first of the indexes to refuse a change, or their number. */
    ghost function Refusing(c: Change): (k: nat)
      requires InStep()
      reads this, indexes
      ensures k <= |indexes|
    {
      FirstRefusal(IndexFiles(), exprs, c)
    }

    /** Write a changed record and, when its body really changed, update the indexes. The record
        is written whatever becomes of them. */
    method StoreUpdate(recno: nat, body: Body) returns (rc: Code, ghost at: nat)
      requires InStep() && 1 <= recno <= |recs|
      modifies this, indexes
      ensures recs == old(recs)[recno - 1 := body]
      ensures rc == OK || rc == INVALID_ENTRY
      ensures rc == INVALID_ENTRY <==> body != old(recs[recno - 1]) && at < |indexes|
      ensures rc == OK ==> InStep()
      ensures body == old(recs[recno - 1]) ==> Files(indexes) == old(Files(indexes))
      ensures body != old(recs[recno - 1]) ==>
        var c := Change(recno, true, old(recs[recno - 1]), body);
        at == old(Refusing(Change(recno, true, recs[recno - 1], body)))
        && Stopped(indexes, exprs, at, recs, old(recs), c, old(Files(indexes)))
    {
      ghost var before := recs;
      var was := recs[recno - 1];
      AgreeSound(indexes, exprs, recs);
      recs := recs[recno - 1 := body];
      rc, at := OK, |indexes|;
      assert body == was ==> recs == before;
      if body != was {
        var k;
        rc, k := UpdNdx(indexes, exprs, recs, Change(recno, true, was, body), before);
        at := k;
      }
    }

    /** Append a record and insert its keys. In indexes that were only ever inserted into this
        never fails. */
    method StoreAppend(body: Body) returns (rc: Code, ghost at: nat)
      requires InStep()
      modifies this, indexes
      ensures recs == old(recs) + [body]
      ensures rc == OK || rc == INVALID_ENTRY
      ensures rc == INVALID_ENTRY <==> at < |indexes|
      ensures rc == OK ==> InStep()
      ensures at == old(Refusing(Change(|recs| + 1, false, [], body)))
      ensures Stopped(indexes, exprs, at, recs, old(recs), Change(|recs|, false, [], body), old(Files(indexes)))
      ensures old(AllNumbered(indexes)) ==> rc == OK && AllNumbered(indexes)
    {
      ghost var before := recs;
      AgreeSound(indexes, exprs, recs);
      recs := recs + [body];
      assert recs == before + [recs[|recs| - 1]] && recs[|recs| - 1] == body;
      var k;
      rc, k := UpdNdx(indexes, exprs, recs, Change(|recs|, false, [], body), before);
      at := k;
    }
  }

  // ---------------------------------------------------------------- building an index

  /** With UNIQUE on only the first record of each key has an entry. */
  ghost predicate Indexed(e: Ent, expr: KeyExpr, recs: seq<Body>, skip: seq<bool>, unique: bool)
    requires |skip| == |recs|
  {
    && Row(e, expr, recs) && !skip[e.recno - 1]
    && (unique ==> forall m :: 0 <= m < e.recno - 1 && !skip[m] ==> expr(recs[m]) != Some(e.key))
  }

  /** The entries to expect of an index built over the records, leaving out the skipped ones. */
  ghost predicate Built(s: seq<Ent>, expr: KeyExpr, recs: seq<Body>, skip: seq<bool>, unique: bool)
    requires |skip| == |recs|
  {
    Sorted(s) && forall e :: e in s <==> Indexed(e, expr, recs, skip, unique)
  }

  lemma BuiltStep(s: seq<Ent>, s': seq<Ent>, expr: KeyExpr, recs: seq<Body>, skip: seq<bool>, n: nat, unique: bool)
    requires |skip| == |recs| && n < |recs| && Built(s, expr, recs[..n], skip[..n], unique) && Sorted(s')
    requires var key := expr(recs[n]);
             if skip[n] || key.None? then s' == s
             else
               var x := Ent(key.v, n + 1);
               if Taken(s, x, unique) then s' == s else s' == InsertSorted(s, x)
    ensures Built(s', expr, recs[..n + 1], skip[..n + 1], unique)
  {
    var key := expr(recs[n]);
    forall e ensures e in s' <==> Indexed(e, expr, recs[..n + 1], skip[..n + 1], unique) {
      EarlierRow(e, expr, recs, skip, n, unique);
      if !skip[n] && key.Some? {
        var x := Ent(key.v, n + 1);
        InsertMembers(s, x);
        TakenMeans(s, expr, recs, skip, n, unique, x);
        assert x !in s by { assert !Row(x, expr, recs[..n]); }
      }
    }
  }

  lemma EarlierRow(e: Ent, expr: KeyExpr, recs: seq<Body>, skip: seq<bool>, n: nat, unique: bool)
    requires |skip| == |recs| && n < |recs|
    ensures Indexed(e, expr, recs[..n], skip[..n], unique)
            <==> Indexed(e, expr, recs[..n + 1], skip[..n + 1], unique) && e.recno != n + 1
  {
  }

  /** In a table read up to record n, the key of x is taken exactly when an earlier record has it. */
  lemma TakenMeans(s: seq<Ent>, expr: KeyExpr, recs: seq<Body>, skip: seq<bool>, n: nat, unique: bool, x: Ent)
    requires |skip| == |recs| && n < |recs| && Built(s, expr, recs[..n], skip[..n], unique) && x.recno == n + 1
    ensures unique ==> (Taken(s, x, true) <==> exists m :: 0 <= m < n && !skip[m] && expr(recs[m]) == Some(x.key))
    ensures !unique ==> !Taken(s, x, false)
  {
    if unique {
      if Taken(s, x, true) {
        var i :| 0 <= i < |s| && s[i].key == x.key;
        assert s[i] in s && Indexed(s[i], expr, recs[..n], skip[..n], unique);
      }
      if m :| 0 <= m < n && !skip[m] && expr(recs[m]) == Some(x.key) {
        var f := First(expr, recs, skip, m, x.key);
        assert Indexed(Ent(x.key, f + 1), expr, recs[..n], skip[..n], unique);
      }
    } else {
      assert !Row(x, expr, recs[..n]);
    }
  }

  /** The first record up to m that is not skipped and has the key. */
  ghost function First(expr: KeyExpr, recs: seq<Body>, skip: seq<bool>, m: nat, key: int): (f: nat)
    requires m < |recs| == |skip| && !skip[m] && expr(recs[m]) == Some(key)
    ensures f <= m && !skip[f] && expr(recs[f]) == Some(key)
    ensures forall k :: 0 <= k < f && !skip[k] ==> expr(recs[k]) != Some(key)
  {
    if k: nat :| k < m && !skip[k] && expr(recs[k]) == Some(key) then First(expr, recs, skip, k, key) else m
  }

  /** Build an index over the records by inserting them one after the other. Nothing is refused
      on the way: the index holds exactly the entries to expect, in order. An index over no keys
      gets an empty root page. */
  method BuildIndex(recs: seq<Body>, skip: seq<bool>, expr: KeyExpr, cap: nat, unique: bool) returns (ndx: Index)
    requires |skip| == |recs| && 2 <= cap
    ensures fresh(ndx) && ndx.Valid() && Numbered(ndx) && ndx.unique == unique && ndx.rootNo != 0
    ensures Built(ndx.Entries(), expr, recs, skip, unique)
  {
    ndx := new Index(cap);
    ndx.unique := unique;
    var count := 0;
    for n := 0 to |recs|
      invariant fresh(ndx) && ndx.Valid() && Numbered(ndx) && ndx.unique == unique
      invariant Built(ndx.Entries(), expr, recs[..n], skip[..n], unique)
      invariant count == 0 ==> ndx.rootNo == 0 && ndx.Entries() == []
      invariant count > 0 ==> ndx.rootNo != 0
    {
      var key := expr(recs[n]);
      ghost var s := ndx.Entries();
      if !skip[n] && key.Some? {
        var rc := InsertNew(ndx, Slot(0, n + 1, key.v));
        if rc == OK {
          count := count + 1;
          RootStays(ndx, s, Ent(key.v, n + 1));
        }
      }
      BuiltStep(s, ndx.Entries(), expr, recs, skip, n, unique);
    }
    assert recs[..|recs|] == recs && skip[..|skip|] == skip;
    if count == 0 {
      AddEmptyRoot(ndx);
    }
  }

  lemma RootStays(ndx: Index, s: seq<Ent>, x: Ent)
    requires ndx.Valid() && ndx.Entries() == InsertSorted(s, x)
    ensures ndx.rootNo != 0
  {
  }

  method AddEmptyRoot(ndx: Index)
    requires ndx.Valid() && ndx.rootNo == 0
    modifies ndx
    ensures ndx.Valid() && ndx.Entries() == [] && ndx.rootNo != 0 && Numbered(ndx) && ndx.unique == old(ndx.unique)
  {
    ndx.rootNo := ndx.pageCnt;
    var p := ndx.GetPage(ndx.rootNo);
    ndx.pageCnt := ndx.pageCnt + 1;
    p.PutPageno(0, 0);
    ghost var t := Leaf(ndx.rootNo, []);
    assert seq(1, i => 0) == [0];
    assert ImageOf(t) == Image([], [0]);
    ndx.WritePage(ndx.rootNo, p, ImageOf(t));
    ndx.tree := t;
  }
}
