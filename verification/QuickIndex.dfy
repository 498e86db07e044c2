/** INDEX ON with the fast builder, end to end: the keys of the table are sorted
    externally and the sorted stream is loaded into the tree (qindex). */
module QuickIndex {
  import opened Options
  import opened Entries
  import Sorting
  import ExternalSort
  import opened IndexFile
  import opened Table
  import opened BulkLoad

  /** Sorted with record numbers compared, the entries of a table have one order only. */
  lemma SortedStream(s: seq<Ent>, rows: Sorting.Rows)
    requires Sorting.Ordered(s, false) && multiset(s) == multiset(ExternalSort.NonNull(rows))
    ensures Sorted(s) && forall e :: e in s <==> Sorting.From(e, rows)
  {
    forall e ensures e in s <==> Sorting.From(e, rows) {
      ExternalSort.NonNullFrom(rows, e);
      assert e in s <==> e in multiset(s);
    }
    forall i, j | 0 <= i < j < |s| ensures Less(s[i], s[j]) {
      ExternalSort.NonNullFrom(rows, s[i]);
      Twice(s, i, j);
      assert !Sorting.Lt(s[j], s[i], false);
      assert Sorting.From(s[i], rows) && Sorting.From(s[j], rows) by { assert s[i] in s && s[j] in s; }
    }
  }

  lemma Twice(s: seq<Ent>, i: nat, j: nat)
    requires i < j < |s|
    ensures s[i] == s[j] ==> multiset(s)[s[i]] >= 2
  {
    var a, b := s[..j], s[j..];
    assert s == a + b && a[i] == s[i] && b[0] == s[j];
    assert multiset(s) == multiset(a) + multiset(b);
  }

  /** Read the sorted file as the stream of the loader. */
  method ReadStream(file: seq<Sorting.Item>, ghost sorted: seq<Ent>) returns (stream: seq<Ent>)
    requires file == ExternalSort.Keys(sorted)
    ensures stream == sorted
  {
    stream := [];
    for i := 0 to |file|
      invariant stream == sorted[..i]
    {
      assert file[i] == Sorting.Key(sorted[i]);
      stream := stream + [file[i].e];
    }
  }

  /** The index holds exactly one entry for every record with a key, in order; without any key
      there is nothing to load and the build fails. */
  method Qindex(ndx: Index, expr: KeyExpr, recs: seq<Body>, nkeys: nat) returns (ok: bool)
    requires 2 <= ndx.cap && 0 < ndx.pageCnt && ndx.pages == map[] && nkeys > 0 && |recs| <= Sorting.TWO31
    modifies ndx
    ensures ok <==> exists i :: 0 <= i < |recs| && expr(recs[i]).Some?
    ensures ok ==> Mirrors(ndx.Entries(), expr, recs)
    ensures ok ==> ndx.Readable()
    ensures ok ==> (ndx.Valid() <==> !LeavesLone(|ndx.Entries()|, ndx.cap, Height(1, ndx.cap, |ndx.Entries()|)))
  {
    var rows: Sorting.Rows := seq(|recs|, i requires 0 <= i < |recs| =>
      match expr(recs[i]) case None => None case Some(k) => Some(k));
    var v := new ExternalSort.Sorter(nkeys, false);
    var which;
    ghost var sorted;
    which, sorted := v.VSort(rows);
    SortedStream(sorted, rows);
    RowsMirror(sorted, rows, expr, recs);
    var stream := ReadStream(v.tempvf[which], sorted);
    ok := QIndex(ndx, stream);
  }

  lemma RowsMirror(s: seq<Ent>, rows: Sorting.Rows, expr: KeyExpr, recs: seq<Body>)
    requires |rows| == |recs| && Sorted(s) && forall e :: e in s <==> Sorting.From(e, rows)
    requires forall i {:trigger rows[i]} :: 0 <= i < |rows| ==>
      rows[i] == match expr(recs[i]) case None => None case Some(k) => Some(k)
    ensures Mirrors(s, expr, recs) && (forall i :: 0 <= i < |s| ==> 0 < s[i].recno)
    ensures s != [] <==> exists i :: 0 <= i < |recs| && expr(recs[i]).Some?
  {
    forall e ensures Sorting.From(e, rows) <==> Row(e, expr, recs) { }
    if i :| 0 <= i < |recs| && expr(recs[i]).Some? {
      assert rows[i].Some?;
      assert Sorting.From(Ent(rows[i].v, i + 1), rows);
    }
    if s != [] { assert s[0] in s; }
    forall i | 0 <= i < |s| ensures 0 < s[i].recno { assert s[i] in s; }
  }

  // ---- with UNIQUE on ----

  /** The first of each run of entries with one key, which is what nextkeyent hands on. */
  function Firsts(s: seq<Ent>): seq<Ent>
    decreases |s|
  {
    if s == [] then []
    else if |s| > 1 && s[|s| - 2].key == s[|s| - 1].key then Firsts(s[..|s| - 1])
    else Firsts(s[..|s| - 1]) + [s[|s| - 1]]
  }

  ghost predicate KeysRise(s: seq<Ent>) { forall i, j :: 0 <= i < j < |s| ==> s[i].key <= s[j].key }

  lemma {:induction false} FirstsIn(s: seq<Ent>)
    ensures forall e :: e in Firsts(s) ==> e in s
    decreases |s|
  {
    if s != [] {
      FirstsIn(s[..|s| - 1]);
      assert s == s[..|s| - 1] + [s[|s| - 1]];
    }
  }

  /** Every key is there, and the last one last. */
  lemma {:induction false} FirstsCover(s: seq<Ent>)
    ensures s != [] ==> Firsts(s) != [] && Firsts(s)[|Firsts(s)| - 1].key == s[|s| - 1].key
    ensures forall i :: 0 <= i < |s| ==> KeyPresent(Firsts(s), s[i].key)
    decreases |s|
  {
    if s != [] {
      var n := |s| - 1;
      var t, f := Firsts(s[..n]), Firsts(s);
      FirstsCover(s[..n]);
      forall i | 0 <= i < |s| ensures KeyPresent(f, s[i].key) {
        if i < n && f != t {
          assert KeyPresent(t, s[..n][i].key);
          var j :| 0 <= j < |t| && t[j].key == s[i].key;
          assert f[j].key == s[i].key;
        } else if i == n {
          assert f[|f| - 1].key == s[i].key;
        } else {
          assert KeyPresent(t, s[..n][i].key);
        }
      }
    }
  }

  ghost predicate KeysDiffer(s: seq<Ent>) { forall i, j :: 0 <= i < j < |s| ==> s[i].key < s[j].key }

  lemma {:induction false} FirstsRise(s: seq<Ent>)
    requires KeysRise(s)
    ensures KeysDiffer(Firsts(s))
    decreases |s|
  {
    if s != [] {
      var n := |s| - 1;
      FirstsRise(s[..n]);
      FirstsCover(s[..n]);
      if n > 0 { assert s[..n][n - 1].key == s[n - 1].key <= s[n].key; }
    }
  }

  /** Read the sorted file with nextkeyent: entries with the key of the one before are passed over. */
  method ReadFirsts(file: seq<Sorting.Item>, ghost sorted: seq<Ent>) returns (stream: seq<Ent>)
    requires file == ExternalSort.Keys(sorted)
    ensures stream == Firsts(sorted)
  {
    stream := [];
    for i := 0 to |file|
      invariant stream == Firsts(sorted[..i])
    {
      assert file[i] == Sorting.Key(sorted[i]);
      assert sorted[..i + 1][..i] == sorted[..i];
      if i == 0 || file[i - 1].e.key != file[i].e.key { stream := stream + [file[i].e]; }
    }
    assert sorted[..|file|] == sorted;
  }

  /** One entry for each key that is not NULL, of some record with that key. */
  ghost predicate OnePerKey(s: seq<Ent>, expr: KeyExpr, recs: seq<Body>) {
    Sorted(s) && (forall e :: e in s ==> Row(e, expr, recs))
    && (forall i :: 0 <= i < |recs| && expr(recs[i]).Some? ==> KeyPresent(s, expr(recs[i]).v))
    && KeysDiffer(s)
  }

  /** Every record has this key. */
  ghost predicate OneKey(expr: KeyExpr, recs: seq<Body>, key: int) {
    forall i :: 0 <= i < |recs| ==> expr(recs[i]) == Some(key)
  }

  /**
   * INDEX ON with UNIQUE on: one entry for each key. The comparison does not look at record
   * numbers then, so it need not be the first record with that key. Of records with one and the
   * same key that fit in the buffer it is the one that Sorting.QFirst tells.
   */
  method QindexUnique(ndx: Index, expr: KeyExpr, recs: seq<Body>, nkeys: nat) returns (ok: bool)
    requires 2 <= ndx.cap && 0 < ndx.pageCnt && ndx.pages == map[] && nkeys > 0 && |recs| <= Sorting.TWO31
    modifies ndx
    ensures ok <==> exists i :: 0 <= i < |recs| && expr(recs[i]).Some?
    ensures ok ==> OnePerKey(ndx.Entries(), expr, recs) && ndx.Readable()
    ensures forall key :: 0 < |recs| <= nkeys && OneKey(expr, recs, key) ==>
              ndx.Entries() == [Ent(key, Sorting.QFirst(|recs|) + 1)]
  {
    var rows: Sorting.Rows := seq(|recs|, i requires 0 <= i < |recs| =>
      match expr(recs[i]) case None => None case Some(k) => Some(k));
    var v := new ExternalSort.Sorter(nkeys, true);
    var which;
    ghost var sorted;
    which, sorted := v.VSort(rows);
    UniqueStream(sorted, rows, expr, recs);
    if 0 < |recs| <= nkeys { OneKeyFirst(expr, recs, rows, sorted, nkeys); }
    var stream := ReadFirsts(v.tempvf[which], sorted);
    ok := QIndex(ndx, stream);
  }

  lemma UniqueStream(s: seq<Ent>, rows: Sorting.Rows, expr: KeyExpr, recs: seq<Body>)
    requires Sorting.Ordered(s, true) && multiset(s) == multiset(ExternalSort.NonNull(rows)) && |rows| == |recs|
    requires forall i {:trigger rows[i]} :: 0 <= i < |rows| ==>
      rows[i] == match expr(recs[i]) case None => None case Some(k) => Some(k)
    ensures OnePerKey(Firsts(s), expr, recs) && (forall i :: 0 <= i < |Firsts(s)| ==> 0 < Firsts(s)[i].recno)
    ensures Firsts(s) != [] <==> exists i :: 0 <= i < |recs| && expr(recs[i]).Some?
  {
    forall e ensures e in s <==> Row(e, expr, recs) {
      ExternalSort.NonNullFrom(rows, e);
      assert e in s <==> e in multiset(s);
    }
    forall i, j | 0 <= i < j < |s| ensures s[i].key <= s[j].key { assert !Sorting.Lt(s[j], s[i], true); }
    OneOfEach(s, expr, recs);
  }

  lemma OneOfEach(s: seq<Ent>, expr: KeyExpr, recs: seq<Body>)
    requires KeysRise(s) && forall e :: e in s <==> Row(e, expr, recs)
    ensures OnePerKey(Firsts(s), expr, recs) && (forall i :: 0 <= i < |Firsts(s)| ==> 0 < Firsts(s)[i].recno)
    ensures Firsts(s) != [] <==> exists i :: 0 <= i < |recs| && expr(recs[i]).Some?
  {
    var f := Firsts(s);
    FirstsIn(s);
    FirstsCover(s);
    FirstsRise(s);
    forall i | 0 <= i < |recs| && expr(recs[i]).Some? ensures KeyPresent(f, expr(recs[i]).v) {
      var e := Ent(expr(recs[i]).v, i + 1);
      assert Row(e, expr, recs);
      var j :| 0 <= j < |s| && s[j] == e;
    }
    forall i | 0 <= i < |f| ensures 0 < f[i].recno { assert f[i] in f && Row(f[i], expr, recs); }
    if f != [] { assert f[0] in f && Row(f[0], expr, recs); }
  }

  // ---- the fast builder and insertion do not always choose the same record ----

  /** The entries of records that all have the key. */
  lemma {:induction false} OneKeyRows(rows: Sorting.Rows, key: int)
    requires forall i {:trigger rows[i]} :: 0 <= i < |rows| ==> rows[i] == Some(key)
    ensures var all := ExternalSort.NonNull(rows);
      |all| == |rows| && (forall i {:trigger all[i]} :: 0 <= i < |all| ==> all[i] == Ent(key, i + 1))
      && Sorting.Same(all, 0, |all|, true)
    decreases |rows|
  {
    if rows != [] {
      var n := |rows| - 1;
      assert rows[n] == Some(key);
      OneKeyRows(rows[..n], key);
    }
  }

  lemma OneKeyFirst(expr: KeyExpr, recs: seq<Body>, rows: Sorting.Rows, sorted: seq<Ent>, nkeys: nat)
    requires 0 < |recs| == |rows| <= nkeys && multiset(sorted) == multiset(ExternalSort.NonNull(rows))
    requires forall i {:trigger rows[i]} :: 0 <= i < |rows| ==>
      rows[i] == match expr(recs[i]) case None => None case Some(k) => Some(k)
    requires var all := ExternalSort.NonNull(rows);
      0 < |all| <= nkeys && Sorting.Same(all, 0, |all|, true) ==> Sorting.Came(all, sorted, 0, |all|)
    ensures forall key :: OneKey(expr, recs, key) ==> Firsts(sorted) == [Ent(key, Sorting.QFirst(|recs|) + 1)]
  {
    forall key | OneKey(expr, recs, key) ensures Firsts(sorted) == [Ent(key, Sorting.QFirst(|recs|) + 1)] {
      OneKeyRows(rows, key);
      SameKey(sorted, ExternalSort.NonNull(rows), key);
      OneKeyStream(sorted, key, |recs|);
    }
  }

  lemma SameKey(s: seq<Ent>, all: seq<Ent>, key: int)
    requires multiset(s) == multiset(all) && forall i {:trigger all[i]} :: 0 <= i < |all| ==> all[i].key == key
    ensures |s| == |all| && forall i {:trigger s[i]} :: 0 <= i < |s| ==> s[i].key == key
  {
    assert |multiset(s)| == |multiset(all)|;
    forall i {:trigger s[i]} | 0 <= i < |s| ensures s[i].key == key {
      assert s[i] in multiset(s) && s[i] in all;
    }
  }

  lemma OneKeyStream(sorted: seq<Ent>, key: int, n: nat)
    requires 0 < n == |sorted| && (forall i {:trigger sorted[i]} :: 0 <= i < n ==> sorted[i].key == key)
    requires sorted[0] == Ent(key, Sorting.QFirst(n) + 1)
    ensures Firsts(sorted) == [Ent(key, Sorting.QFirst(n) + 1)]
  {
    OnlyFirst(sorted, n);
    assert sorted[..n] == sorted;
  }

  lemma {:induction false} OnlyFirst(s: seq<Ent>, n: nat)
    requires 0 < n <= |s| && forall i {:trigger s[i]} :: 0 <= i < |s| ==> s[i].key == s[0].key
    ensures Firsts(s[..n]) == [s[0]]
    decreases n
  {
    if n > 1 {
      assert s[..n][..n - 1] == s[..n - 1];
      assert s[..n][n - 2].key == s[..n][n - 1].key;
      OnlyFirst(s, n - 1);
    } else {
      assert Firsts([]) == [];
    }
  }

  /**
   * Of records with one key insertion keeps the entry of the first, and the fast builder that of
   * another one exactly if there are INSORTSZ of them or more.
   */
  lemma OtherRecord(built: seq<Ent>, expr: KeyExpr, recs: seq<Body>, key: int)
    requires 0 < |recs| && OneKey(expr, recs, key)
    requires Built(built, expr, recs, seq(|recs|, i => false), true)
    ensures built == [Ent(key, 1)]
    ensures built != [Ent(key, Sorting.QFirst(|recs|) + 1)] <==> 256 <= |recs|
  {
    var none := seq(|recs|, i => false);
    forall e ensures e in built <==> e == Ent(key, 1) {
      assert e in built <==> Indexed(e, expr, recs, none, true);
      if e.recno > 1 && Row(e, expr, recs) { assert expr(recs[0]) == Some(e.key) && !none[0]; }
    }
    SortedUnique(built, [Ent(key, 1)]);
  }
}
