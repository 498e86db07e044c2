/** Index entries and sorted runs of them. An entry pairs a key with a record number;
    entries are ordered by key first and record number second. Keys are integers here:
    module Keys shows that the character-key comparison is the order of integer ranks. */
module Entries {

  datatype Ent = Ent(key: int, recno: nat)

  predicate Less(a: Ent, b: Ent) {
    a.key < b.key || (a.key == b.key && a.recno < b.recno)
  }

  /** By key, and by record number within a key: no two entries are at the same place. */
  lemma LessIs(a: Ent, b: Ent)
    ensures a.key != b.key ==> (Less(a, b) <==> a.key < b.key)
    ensures a.key == b.key ==> (Less(a, b) <==> a.recno < b.recno)
    ensures Less(a, b) || Less(b, a) || a == b
  {
  }

  ghost predicate Sorted(s: seq<Ent>) {
    forall i, j :: 0 <= i < j < |s| ==> Less(s[i], s[j])
  }

  /** Every element of s comes before x (after x). */
  ghost predicate AllBelow(s: seq<Ent>, x: Ent) {
    forall i :: 0 <= i < |s| ==> Less(s[i], x)
  }

  ghost predicate AllAbove(s: seq<Ent>, x: Ent) {
    forall i :: 0 <= i < |s| ==> Less(x, s[i])
  }

  /** Where the scan loops of the index code stop: the first element not before x. */
  function Pos(s: seq<Ent>, x: Ent): (k: nat)
    ensures k <= |s|
    ensures forall i :: 0 <= i < k ==> Less(s[i], x)
    ensures k < |s| ==> !Less(s[k], x)
  {
    if s == [] || !Less(s[0], x) then 0 else 1 + Pos(s[1..], x)
  }

  /** s with x put at its place in the order. */
  function InsertSorted(s: seq<Ent>, x: Ent): seq<Ent> {
    s[..Pos(s, x)] + [x] + s[Pos(s, x)..]
  }

  predicate Present(s: seq<Ent>, x: Ent) {
    Pos(s, x) < |s| && s[Pos(s, x)] == x
  }

  /** The key of x occurs in s. */
  predicate KeyPresent(s: seq<Ent>, key: int) {
    exists i :: 0 <= i < |s| && s[i].key == key
  }

  function Remove(s: seq<Ent>, x: Ent): seq<Ent>
    requires Present(s, x)
  {
    s[..Pos(s, x)] + s[Pos(s, x) + 1..]
  }

  lemma PosUnique(s: seq<Ent>, x: Ent, k: nat)
    requires k <= |s|
    requires forall i :: 0 <= i < k ==> Less(s[i], x)
    requires k < |s| ==> !Less(s[k], x)
    ensures Pos(s, x) == k
  {
  }

  /** In a sorted run, presence is membership. */
  lemma PresentIffMember(s: seq<Ent>, x: Ent)
    requires Sorted(s)
    ensures Present(s, x) <==> x in s
  {
    if x in s {
      var k :| 0 <= k < |s| && s[k] == x;
      PosUnique(s, x, k);
    }
  }

  lemma PosMid(a: seq<Ent>, b: seq<Ent>, c: seq<Ent>, x: Ent)
    requires AllBelow(a, x)
    requires c != [] ==> !Less(c[0], x)
    ensures Pos(a + b + c, x) == |a| + Pos(b, x)
  {
    var s := a + b + c;
    var k := |a| + Pos(b, x);
    forall i | 0 <= i < k ensures Less(s[i], x) {
      if i < |a| { assert s[i] == a[i]; } else { assert s[i] == b[i - |a|]; }
    }
    if k < |s| {
      if Pos(b, x) < |b| { assert s[k] == b[Pos(b, x)]; } else { assert s[k] == c[0]; }
    }
    PosUnique(s, x, k);
  }

  /** Cutting a sequence of three parts inside the middle one. */
  lemma CutMid(a: seq<Ent>, b: seq<Ent>, c: seq<Ent>, k: nat)
    requires k <= |b|
    ensures (a + b + c)[..|a| + k] == a + b[..k] && (a + b + c)[|a| + k..] == b[k..] + c
  {
  }

  lemma Regroup(a: seq<Ent>, b: seq<Ent>, m: seq<Ent>, d: seq<Ent>, c: seq<Ent>)
    ensures (a + b) + m + (d + c) == a + (b + m + d) + c
  {
  }

  lemma InsertMid(a: seq<Ent>, b: seq<Ent>, c: seq<Ent>, x: Ent)
    requires AllBelow(a, x)
    requires c != [] ==> !Less(c[0], x)
    ensures InsertSorted(a + b + c, x) == a + InsertSorted(b, x) + c
  {
    PosMid(a, b, c, x);
    var k := Pos(b, x);
    CutMid(a, b, c, k);
    Regroup(a, b[..k], [x], b[k..], c);
  }

  lemma RemoveMid(a: seq<Ent>, b: seq<Ent>, c: seq<Ent>, x: Ent)
    requires AllBelow(a, x) && Present(b, x)
    requires c != [] ==> !Less(c[0], x)
    ensures Present(a + b + c, x)
    ensures Remove(a + b + c, x) == a + Remove(b, x) + c
  {
    PosMid(a, b, c, x);
    var k := Pos(b, x);
    assert (a + b + c)[|a| + k] == b[k];
    CutMid(a, b, c, k);
    CutMid(a, b, c, k + 1);
    Regroup(a, b[..k], [], b[k + 1..], c);
    assert b[..k] + [] == b[..k] && a + b[..k] + [] == a + b[..k];
  }

  /** Inserting an absent entry keeps the run sorted. */
  lemma InsertKeepsSorted(s: seq<Ent>, x: Ent)
    requires Sorted(s) && x !in s
    ensures Sorted(InsertSorted(s, x))
  {
    var k := Pos(s, x);
    var t := InsertSorted(s, x);
    forall i | k <= i < |s| ensures Less(x, s[i]) {
      assert s[k] != x;
      if i > k { assert Less(s[k], s[i]); }
    }
    forall i, j | 0 <= i < j < |t| ensures Less(t[i], t[j]) {
      var i', j' := if i <= k then i else i - 1, if j <= k then j else j - 1;
      assert i != k ==> t[i] == s[i'];
      assert j != k ==> t[j] == s[j'];
    }
  }

  /** Inserting adds exactly that entry. */
  lemma InsertMultiset(s: seq<Ent>, x: Ent)
    ensures multiset(InsertSorted(s, x)) == multiset(s) + multiset{x}
  {
    assert s == s[..Pos(s, x)] + s[Pos(s, x)..];
  }

  /** Removing a present entry keeps the run sorted, and the entry is gone. */
  lemma RemoveKeepsSorted(s: seq<Ent>, x: Ent)
    requires Sorted(s) && Present(s, x)
    ensures Sorted(Remove(s, x))
    ensures x !in Remove(s, x)
  {
    var k := Pos(s, x);
    var t := Remove(s, x);
    forall i | 0 <= i < |t| ensures t[i] == s[if i < k then i else i + 1] && t[i] != x {
      if i < k { assert Less(s[i], s[k]); } else { assert Less(s[k], s[i + 1]); }
    }
  }

  /** Removing drops exactly that entry. */
  lemma RemoveMultiset(s: seq<Ent>, x: Ent)
    requires Present(s, x)
    ensures multiset(s) == multiset(Remove(s, x)) + multiset{x}
  {
    var k := Pos(s, x);
    assert s == s[..k] + [s[k]] + s[k + 1..];
  }

  /** Insertion and removal are inverse. */
  lemma RemoveUndoesInsert(s: seq<Ent>, x: Ent)
    requires Sorted(s) && x !in s
    ensures Present(InsertSorted(s, x), x)
    ensures Remove(InsertSorted(s, x), x) == s
  {
    var k := Pos(s, x);
    var t := InsertSorted(s, x);
    PosUnique(t, x, k);
    assert t[..k] == s[..k] && t[k + 1..] == s[k..];
  }
}
