/** Indexes with UNIQUE on: what an update makes of one that lists the first record of each key
    (server/dbe/ndx.c:377-410). */
module Unique {
  import opened Options
  import opened Entries
  import opened BTree
  import opened IndexState
  import opened Table

  /** The keys of the records. */
  type KeySeq = seq<Option<int>>

  function KeysOf(expr: KeyExpr, recs: seq<Body>): (ks: KeySeq)
    ensures |ks| == |recs|
  {
    seq(|recs|, i requires 0 <= i < |recs| => expr(recs[i]))
  }

  predicate Before(ks: KeySeq, n: nat, key: int) { exists m :: 0 <= m < n && m < |ks| && ks[m] == Some(key) }
  predicate After(ks: KeySeq, n: nat, key: int) { exists m :: n <= m < |ks| && ks[m] == Some(key) }

  /** The entry of the first record with its key. */
  predicate Listed(e: Ent, ks: KeySeq) {
    1 <= e.recno <= |ks| && ks[e.recno - 1] == Some(e.key) && !Before(ks, e.recno - 1, e.key)
  }

  /** What an index with UNIQUE on should list. */
  ghost predicate Firsts(s: seq<Ent>, ks: KeySeq) {
    Sorted(s) && forall e :: e in s <==> Listed(e, ks)
  }

  /** It does when it has been built (Table.BuildIndex). */
  lemma BuiltIsFirsts(s: seq<Ent>, expr: KeyExpr, recs: seq<Body>)
    ensures Built(s, expr, recs, seq(|recs|, i => false), true) <==> Firsts(s, KeysOf(expr, recs))
  {
    var ks, none := KeysOf(expr, recs), seq(|recs|, i => false);
    forall e ensures Indexed(e, expr, recs, none, true) <==> Listed(e, ks) {
      if 1 <= e.recno <= |recs| && Before(ks, e.recno - 1, e.key) {
        var m :| 0 <= m < e.recno - 1 && ks[m] == Some(e.key);
        assert expr(recs[m]) == Some(e.key) && !none[m];
      } else if Listed(e, ks) {
        forall m | 0 <= m < e.recno - 1 ensures expr(recs[m]) != Some(e.key) { assert ks[m] != Some(e.key); }
      }
    }
  }

  /**
   * A record whose key changes: the engine looks for its old entry, and fails with NTNDX exactly if
   * an earlier record has that key, whose entry it is.
   */
  lemma UniqueMisses(f: File, ks: KeySeq, recno: nat, newKey: Option<int>)
    requires Firsts(EntriesOf(f), ks) && 1 <= recno <= |ks|
    ensures var o := ks[recno - 1];
      Misses(f, recno, o, newKey) <==> o.Some? && newKey != o && Before(ks, recno - 1, o.v)
  {
    var o := ks[recno - 1];
    if o.Some? { PresentIffMember(EntriesOf(f), Ent(o.v, recno)); }
  }

  /**
   * When it does not fail, the index lists the first record of each key again exactly if no later
   * record has the old key, of which nothing is left in the index, and no later one the new key,
   * unless an earlier one has it as well.
   */
  lemma UniqueKept(s: seq<Ent>, ks: KeySeq, recno: nat, n: Option<int>)
    requires Firsts(s, ks) && 1 <= recno <= |ks| && ks[recno - 1] != n
    requires var o := ks[recno - 1]; o.Some? ==> Ent(o.v, recno) in s
    ensures var o := ks[recno - 1];
      Firsts(Replaced(s, o, n, recno, true), ks[recno - 1 := n]) <==> Keeps(ks, recno, o, n)
  {
    var o := ks[recno - 1];
    Members(s, recno, o, n);
    var t := Replaced(s, o, n, recno, true);
    if o.Some? && After(ks, recno, o.v) {
      Forgotten(s, t, ks, recno, n);
    } else if !Keeps(ks, recno, o, n) {
      Stays(s, t, ks, recno, n);
    } else {
      forall e ensures e in t <==> Listed(e, ks[recno - 1 := n]) {
        if e.recno == recno { FollowsHere(s, t, ks, recno, n, e); } else { FollowsThere(s, t, ks, recno, n, e); }
      }
    }
  }

  predicate Keeps(ks: KeySeq, recno: nat, o: Option<int>, n: Option<int>)
    requires 1 <= recno
  {
    (o.Some? ==> !After(ks, recno, o.v)) && (n.Some? && After(ks, recno, n.v) ==> Before(ks, recno - 1, n.v))
  }

  /** The old entry goes, and the new one comes unless its key is there. */
  ghost predicate Exchanged(s: seq<Ent>, t: seq<Ent>, recno: nat, o: Option<int>, n: Option<int>) {
    forall e :: e in t <==>
      (e in s && !(o == Some(e.key) && e.recno == recno))
      || (n == Some(e.key) && e.recno == recno && !KeyPresent(s, e.key))
  }

  /** Two records with key 1, of which the first gets key 2: nothing is left of key 1 in the index,
      and then the second cannot be updated. */
  lemma KeyLost(f: File)
    requires f.unique && EntriesOf(f) == [Ent(2, 1)]
    ensures var ks := [Some(1), Some(1)]; var now := [Some(2), Some(1)];
      && Firsts([Ent(1, 1)], ks) && Replaced([Ent(1, 1)], ks[0], now[0], 1, true) == [Ent(2, 1)]
      && !Firsts([Ent(2, 1)], now) && Misses(f, 2, now[1], Some(3))
  {
    var ks, now := [Some(1), Some(1)], [Some(2), Some(1)];
    assert Before(ks, 1, 1) by { assert ks[0] == Some(1); }
    assert !Before(ks, 0, 1);
    assert Present([Ent(1, 1)], Ent(1, 1)) by { PresentIffMember([Ent(1, 1)], Ent(1, 1)); }
    assert Without([Ent(1, 1)], ks[0], now[0], 1) == [];
    assert Listed(Ent(1, 2), now) && Ent(1, 2) !in [Ent(2, 1)];
    PresentIffMember(EntriesOf(f), Ent(1, 2));
  }

  lemma Members(s: seq<Ent>, recno: nat, o: Option<int>, n: Option<int>)
    requires Sorted(s) && o != n && (o.Some? ==> Ent(o.v, recno) in s)
    ensures var t := Replaced(s, o, n, recno, true); Sorted(t) && Exchanged(s, t, recno, o, n)
  {
    var s1 := Without(s, o, n, recno);
    if o.Some? {
      PresentIffMember(s, Ent(o.v, recno));
      RemoveMembers(s, Ent(o.v, recno));
      RemoveKeepsSorted(s, Ent(o.v, recno));
    }
    if n.Some? {
      var x := Ent(n.v, recno);
      SameKeys(s, s1, o, n.v, recno);
      if !Taken(s1, x, true) {
        InsertMembers(s1, x);
        assert x !in s1;
        InsertKeepsSorted(s1, x);
      }
    }
  }

  lemma SameKeys(s: seq<Ent>, s1: seq<Ent>, o: Option<int>, key: int, recno: nat)
    requires o != Some(key) && forall e :: e in s1 <==> e in s && !(o == Some(e.key) && e.recno == recno)
    ensures KeyPresent(s1, key) <==> KeyPresent(s, key)
  {
    if i :| 0 <= i < |s| && s[i].key == key { assert s[i] in s1; }
    if i :| 0 <= i < |s1| && s1[i].key == key { assert s1[i] in s; }
  }

  /** The first record from n on with the key. */
  lemma {:induction false} FirstFrom(ks: KeySeq, n: nat, key: int) returns (m: nat)
    requires After(ks, n, key)
    ensures n <= m < |ks| && ks[m] == Some(key) && forall k :: n <= k < m ==> ks[k] != Some(key)
    decreases |ks| - n
  {
    if ks[n] == Some(key) { m := n; } else { m := FirstFrom(ks, n + 1, key); }
  }

  /** A key is in the index if and only if a record has it. */
  lemma KeyListed(s: seq<Ent>, ks: KeySeq, key: int)
    requires Firsts(s, ks)
    ensures KeyPresent(s, key) <==> After(ks, 0, key)
  {
    if i :| 0 <= i < |s| && s[i].key == key { assert s[i] in s && Listed(s[i], ks); }
    if After(ks, 0, key) {
      var m := FirstFrom(ks, 0, key);
      assert Listed(Ent(key, m + 1), ks);
    }
  }

  /** The next record with the old key should be listed now, and is not. */
  lemma Forgotten(s: seq<Ent>, t: seq<Ent>, ks: KeySeq, recno: nat, n: Option<int>)
    requires Firsts(s, ks) && 1 <= recno <= |ks| && ks[recno - 1] != n
    requires var o := ks[recno - 1];
      o.Some? && Ent(o.v, recno) in s && After(ks, recno, o.v) && Exchanged(s, t, recno, o, n)
    ensures !Firsts(t, ks[recno - 1 := n])
  {
    var o, now := ks[recno - 1], ks[recno - 1 := n];
    var m := FirstFrom(ks, recno, o.v);
    var x := Ent(o.v, m + 1);
    assert Listed(Ent(o.v, recno), ks);
    assert !Before(now, m, o.v) by {
      if k :| 0 <= k < m && now[k] == Some(o.v) { assert k < recno - 1 && ks[k] == Some(o.v); }
    }
    assert Listed(x, now);
    assert Before(ks, m, o.v) by { assert ks[recno - 1] == Some(o.v); }
    assert x !in t;
  }

  /** Now this record is the first with the new key, and is not listed because a later one is. */
  lemma Stays(s: seq<Ent>, t: seq<Ent>, ks: KeySeq, recno: nat, n: Option<int>)
    requires Firsts(s, ks) && 1 <= recno <= |ks| && ks[recno - 1] != n && Exchanged(s, t, recno, ks[recno - 1], n)
    requires n.Some? && After(ks, recno, n.v) && !Before(ks, recno - 1, n.v)
    ensures !Firsts(t, ks[recno - 1 := n])
  {
    var now, x := ks[recno - 1 := n], Ent(n.v, recno);
    KeyListed(s, ks, n.v);
    assert After(ks, 0, n.v);
    assert forall k :: 0 <= k < recno - 1 ==> now[k] == ks[k];
    assert Listed(x, now) && !Listed(x, ks);
    assert x !in t;
  }

  lemma FollowsHere(s: seq<Ent>, t: seq<Ent>, ks: KeySeq, recno: nat, n: Option<int>, e: Ent)
    requires Firsts(s, ks) && 1 <= recno <= |ks| && ks[recno - 1] != n && Exchanged(s, t, recno, ks[recno - 1], n)
    requires Keeps(ks, recno, ks[recno - 1], n) && e.recno == recno
    ensures e in t <==> Listed(e, ks[recno - 1 := n])
  {
    var now := ks[recno - 1 := n];
    if n == Some(e.key) {
      KeyListed(s, ks, e.key);
      if Before(ks, recno - 1, e.key) {
        var k :| 0 <= k < recno - 1 && ks[k] == Some(e.key);
        assert now[k] == Some(e.key);
      }
    }
  }

  lemma FollowsThere(s: seq<Ent>, t: seq<Ent>, ks: KeySeq, recno: nat, n: Option<int>, e: Ent)
    requires Firsts(s, ks) && 1 <= recno <= |ks| && ks[recno - 1] != n && Exchanged(s, t, recno, ks[recno - 1], n)
    requires Keeps(ks, recno, ks[recno - 1], n) && e.recno != recno
    ensures e in t <==> Listed(e, ks[recno - 1 := n])
  {
    var now := ks[recno - 1 := n];
    if 1 <= e.recno <= |ks| && ks[e.recno - 1] == Some(e.key) {
      assert now[e.recno - 1] == Some(e.key);
      if Before(ks, e.recno - 1, e.key) {
        var k :| 0 <= k < e.recno - 1 && ks[k] == Some(e.key);
        assert k == recno - 1 || now[k] == Some(e.key);
      }
      if Before(now, e.recno - 1, e.key) {
        var k :| 0 <= k < e.recno - 1 && now[k] == Some(e.key);
        if k == recno - 1 {
          assert After(ks, recno, e.key);
          var i :| 0 <= i < recno - 1 && ks[i] == Some(e.key);
        } else { assert ks[k] == Some(e.key); }
      }
    }
  }
}
