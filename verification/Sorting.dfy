/** The comparison of sort entries and the in-memory sort: quicksort in place, with
    insertion sort for short ranges. */
module Sorting {
  import opened Options
  import opened Entries

  /** A sort buffer item: an entry, or the padding read past the end of a run (all bits set). */
  datatype Item = Key(e: Ent) | Pad

  const TWO31: int := 0x8000_0000
  const TWO32: int := 0x1_0000_0000

  /** A 64-bit difference cut down to a signed 32-bit result. */
  function Trunc32(d: int): (r: int)
    ensures -TWO31 <= r < TWO31
  {
    var m := d % TWO32;
    if m < TWO31 then m else m - TWO32
  }

  /** The comparison, with `unique` looking at the keys only. */
  function Qcomp(p: Item, q: Item, unique: bool): int {
    if p == q || (p.Key? && q.Key? && p.e.recno == q.e.recno) then 0
    else if (p.Key? && p.e.recno == 0) || q.Pad? then -1
    else if (q.Key? && q.e.recno == 0) || p.Pad? then 1
    else if p.e.key < q.e.key then -1
    else if p.e.key > q.e.key then 1
    else if unique then 0
    else Trunc32(p.e.recno - q.e.recno)
  }

  predicate Lt(a: Ent, b: Ent, unique: bool) {
    a.key < b.key || (!unique && a.key == b.key && a.recno < b.recno)
  }

  /** The keys of the table's records, NULL keys left out of the sort. */
  type Rows = seq<Option<int>>

  /** `e` is the entry of a record of the table. */
  predicate From(e: Ent, rows: Rows) {
    1 <= e.recno <= |rows| && rows[e.recno - 1] == Some(e.key)
  }

  ghost predicate AllFrom(s: seq<Ent>, rows: Rows) {
    forall i {:trigger s[i]} :: 0 <= i < |s| ==> From(s[i], rows)
  }

  ghost predicate AllIn(s: seq<Ent>, lo: nat, hi: nat, rows: Rows) {
    lo <= hi <= |s| && forall i {:trigger s[i]} :: lo <= i < hi ==> From(s[i], rows)
  }

  lemma QcompSign(a: Ent, b: Ent, unique: bool, rows: Rows)
    requires From(a, rows) && From(b, rows) && |rows| <= TWO31
    ensures (Qcomp(Key(a), Key(b), unique) < 0 <==> Lt(a, b, unique))
      && (Qcomp(Key(a), Key(b), unique) > 0 <==> Lt(b, a, unique))
  {
  }

  /** The comparison orders all entries of tables of `n` records by key and record number
      exactly if `n` is at most 2^31: then no difference of record numbers is cut. */
  lemma QcompExactly(n: nat)
    requires n >= 1
    ensures n <= TWO31 <==>
      forall a: Ent, b: Ent :: 1 <= a.recno <= n && 1 <= b.recno <= n && (a.recno == b.recno ==> a == b) ==>
        (Qcomp(Key(a), Key(b), false) < 0 <==> Less(a, b))
  {
    if n > TWO31 {
      var a, b := Ent(0, TWO31 + 1), Ent(0, 1);
      assert Qcomp(Key(a), Key(b), false) == -TWO31 && !Less(a, b);
    }
  }

  ghost predicate Ordered(s: seq<Ent>, unique: bool) {
    forall i, j {:trigger s[i], s[j]} :: 0 <= i < j < |s| ==> !Lt(s[j], s[i], unique)
  }

  // ------------------------------------------------------------ rearranging a range

  /** `t` is `s` with the items from `lo` to `hi` rearranged. */
  ghost predicate Perm(s: seq<Ent>, t: seq<Ent>, lo: nat, hi: nat) {
    && |s| == |t| && lo <= hi <= |s|
    && s[..lo] == t[..lo] && s[hi..] == t[hi..]
    && multiset(s[lo..hi]) == multiset(t[lo..hi])
  }

  lemma PermTrans(a: seq<Ent>, b: seq<Ent>, c: seq<Ent>, lo: nat, hi: nat)
    requires Perm(a, b, lo, hi) && Perm(b, c, lo, hi)
    ensures Perm(a, c, lo, hi)
  {
  }

  lemma PermWiden(s: seq<Ent>, t: seq<Ent>, lo: nat, hi: nat, lo': nat, hi': nat)
    requires Perm(s, t, lo, hi) && lo' <= lo && hi <= hi' <= |s|
    ensures Perm(s, t, lo', hi')
  {
    assert s[lo'..hi'] == s[lo'..lo] + s[lo..hi] + s[hi..hi'];
    assert t[lo'..hi'] == t[lo'..lo] + t[lo..hi] + t[hi..hi'];
    assert s[lo'..lo] == s[..lo][lo'..] && t[lo'..lo] == t[..lo][lo'..];
    assert s[hi..hi'] == s[hi..][..hi' - hi] && t[hi..hi'] == t[hi..][..hi' - hi];
    assert s[..lo'] == s[..lo][..lo'] && t[..lo'] == t[..lo][..lo'];
    assert s[hi'..] == s[hi..][hi' - hi..] && t[hi'..] == t[hi..][hi' - hi..];
  }

  lemma PermSwap(s: seq<Ent>, i: nat, j: nat, lo: nat, hi: nat)
    requires lo <= i <= j < hi <= |s|
    ensures Perm(s, s[i := s[j]][j := s[i]], lo, hi)
  {
    var t := s[i := s[j]][j := s[i]];
    var a, b := s[lo..hi], t[lo..hi];
    assert b == a[i - lo := a[j - lo]][j - lo := a[i - lo]];
  }

  /** A rearranged range has, at every place, an item it had before. */
  lemma PermFrom(s: seq<Ent>, t: seq<Ent>, lo: nat, hi: nat, k: nat) returns (m: nat)
    requires Perm(s, t, lo, hi) && lo <= k < hi
    ensures lo <= m < hi && s[m] == t[k]
  {
    assert t[lo..hi][k - lo] == t[k];
    assert t[k] in multiset(t[lo..hi]);
    assert t[k] in s[lo..hi];
    var i :| 0 <= i < hi - lo && s[lo..hi][i] == t[k];
    m := lo + i;
  }

  ghost predicate Below(s: seq<Ent>, lo: nat, hi: nat, x: Ent, unique: bool) {
    lo <= hi <= |s| && forall k {:trigger s[k]} :: lo <= k < hi ==> !Lt(x, s[k], unique)
  }
  ghost predicate Above(s: seq<Ent>, lo: nat, hi: nat, x: Ent, unique: bool) {
    lo <= hi <= |s| && forall k {:trigger s[k]} :: lo <= k < hi ==> !Lt(s[k], x, unique)
  }

  /** No item of the range is before another. */
  ghost predicate Same(s: seq<Ent>, lo: nat, hi: nat, unique: bool) {
    lo <= hi <= |s| && forall i, j {:trigger s[i], s[j]} :: lo <= i < hi && lo <= j < hi ==> !Lt(s[i], s[j], unique)
  }

  ghost predicate Unmoved(s: seq<Ent>, t: seq<Ent>, lo: nat, hi: nat) {
    lo <= hi <= |s| == |t| && forall k {:trigger t[k]} :: lo <= k < hi ==> t[k] == s[k]
  }

  lemma SameSub(s: seq<Ent>, t: seq<Ent>, lo: nat, hi: nat, hi': nat, unique: bool)
    requires Same(s, lo, hi, unique) && Unmoved(s, t, lo, hi) && lo <= hi' <= hi
    ensures Same(t, lo, hi', unique)
  {
  }

  lemma UnmovedTwice(a: seq<Ent>, b: seq<Ent>, c: seq<Ent>, lo: nat, hi: nat, hi': nat)
    requires Unmoved(a, b, lo, hi) && Unmoved(b, c, lo, hi') && hi' <= hi && Perm(b, c, lo, hi')
    ensures Unmoved(a, c, lo, hi)
  {
    forall k {:trigger c[k]} | lo <= k < hi ensures c[k] == a[k] { if k >= hi' { PermOutside(b, c, lo, hi', k); } }
  }

  lemma PermBounds(s: seq<Ent>, t: seq<Ent>, lo: nat, hi: nat, x: Ent, unique: bool)
    requires Perm(s, t, lo, hi)
    ensures Below(s, lo, hi, x, unique) ==> Below(t, lo, hi, x, unique)
    ensures Above(s, lo, hi, x, unique) ==> Above(t, lo, hi, x, unique)
  {
    if Below(s, lo, hi, x, unique) {
      forall k {:trigger t[k]} | lo <= k < hi ensures !Lt(x, t[k], unique) { var m := PermFrom(s, t, lo, hi, k); }
    }
    if Above(s, lo, hi, x, unique) {
      forall k {:trigger t[k]} | lo <= k < hi ensures !Lt(t[k], x, unique) { var m := PermFrom(s, t, lo, hi, k); }
    }
  }

  lemma PermAllIn(s: seq<Ent>, t: seq<Ent>, lo: nat, hi: nat, rows: Rows)
    requires Perm(s, t, lo, hi) && AllIn(s, lo, hi, rows)
    ensures AllIn(t, lo, hi, rows)
  {
    forall k {:trigger t[k]} | lo <= k < hi ensures From(t[k], rows) { var m := PermFrom(s, t, lo, hi, k); }
  }

  /** An item outside the range stays. */
  lemma PermOutside(s: seq<Ent>, t: seq<Ent>, lo: nat, hi: nat, k: nat)
    requires Perm(s, t, lo, hi) && k < |s| && (k < lo || k >= hi)
    ensures t[k] == s[k]
  {
    if k < lo { assert t[k] == t[..lo][k] == s[..lo][k] == s[k]; }
    else { assert t[k] == t[hi..][k - hi] == s[hi..][k - hi] == s[k]; }
  }

  /** The range from `lo` to `hi` is in order. */
  ghost predicate InOrder(s: seq<Ent>, lo: nat, hi: nat, unique: bool) {
    lo <= hi <= |s| && forall i, j {:trigger s[i], s[j]} :: lo <= i < j < hi ==> !Lt(s[j], s[i], unique)
  }

  // ------------------------------------------------------------ insertion sort

  /** A round on part of a range rearranges the whole range. */
  lemma PermStep(a: seq<Ent>, b: seq<Ent>, c: seq<Ent>, lo: nat, hi: nat, lo': nat, hi': nat, rows: Rows)
    requires Perm(a, b, lo', hi') && Perm(b, c, lo, hi) && lo' <= lo && hi <= hi' && AllIn(a, lo', hi', rows)
    ensures Perm(a, c, lo', hi') && AllIn(b, lo', hi', rows) && AllIn(c, lo', hi', rows)
  {
    PermAllIn(a, b, lo', hi', rows);
    PermWiden(b, c, lo, hi, lo', hi');
    PermTrans(a, b, c, lo', hi');
    PermAllIn(a, c, lo', hi', rows);
  }

  method Insort(keys: array<Ent>, start: nat, nitms: nat, unique: bool, ghost rows: Rows)
    requires start + nitms <= keys.Length && AllIn(keys[..], start, start + nitms, rows) && |rows| <= TWO31
    modifies keys
    ensures Perm(old(keys[..]), keys[..], start, start + nitms) && InOrder(keys[..], start, start + nitms, unique)
    ensures Same(old(keys[..]), start, start + nitms, unique) ==> Unmoved(old(keys[..]), keys[..], start, start + nitms)
  {
    ghost var was := keys[..];
    var k := 1;
    while k < nitms
      invariant 1 <= k && (k <= nitms || nitms == 0)
      invariant Inserting(was, keys[..], start, start + nitms, start + k, unique, rows)
    {
      InsertNext(keys, start, k, unique, was, start + nitms, rows);
      k := k + 1;
    }
  }

  /** The first items, up to k, are in order; and items that are all the same have not moved. */
  ghost predicate Inserting(was: seq<Ent>, s: seq<Ent>, lo: nat, hi: nat, k: nat, unique: bool, rows: Rows) {
    && Perm(was, s, lo, hi) && AllIn(was, lo, hi, rows) && AllIn(s, lo, hi, rows)
        && (k <= hi ==> InOrder(s, lo, k, unique))
    && (Same(was, lo, hi, unique) ==> Unmoved(was, s, lo, hi))
  }

  method InsertNext(keys: array<Ent>, start: nat, k: nat, unique: bool, ghost was: seq<Ent>, ghost end: nat,
                    ghost rows: Rows)
    requires 1 <= k && start + k < end <= keys.Length && |rows| <= TWO31
    requires Inserting(was, keys[..], start, end, start + k, unique, rows)
    modifies keys
    ensures Inserting(was, keys[..], start, end, start + k + 1, unique, rows)
  {
    ghost var t := keys[..];
    InsertOne(keys, start, k, unique, rows);
    OneInserted(was, t, keys[..], start, end, start + k + 1, unique, rows);
  }

  lemma OneInserted(was: seq<Ent>, t: seq<Ent>, u: seq<Ent>, lo: nat, hi: nat, k: nat, unique: bool, rows: Rows)
    requires Perm(was, t, lo, hi) && AllIn(was, lo, hi, rows) && lo <= k <= hi && Perm(t, u, lo, k)
      && InOrder(u, lo, k, unique)
    requires Same(was, lo, hi, unique) ==> Unmoved(was, t, lo, hi)
    requires Same(t, lo, k, unique) ==> Unmoved(t, u, lo, k)
    ensures Inserting(was, u, lo, hi, k, unique, rows)
  {
    PermStep(was, t, u, lo, k, lo, hi, rows);
    if Same(was, lo, hi, unique) {
      SameSub(was, t, lo, hi, k, unique);
      UnmovedTwice(was, t, u, lo, hi, k);
    }
  }

  /** `u` is `t` with `x` moved from `e` down to `p`, the items between moved up a place. */
  ghost predicate Drops(t: seq<Ent>, u: seq<Ent>, p: nat, e: nat) {
    && p <= e < |t| == |u| && u[p] == t[e]
    && (forall m {:trigger u[m]} :: 0 <= m < p || e < m < |t| ==> u[m] == t[m])
    && (forall m {:trigger u[m]} :: p < m <= e ==> u[m] == t[m - 1])
  }

  /** One round: entries after the next one move up a place, and it drops into the gap. */
  method InsertOne(keys: array<Ent>, start: nat, k: nat, unique: bool, ghost rows: Rows)
    requires 1 <= k && start + k < keys.Length && AllIn(keys[..], start, start + k + 1, rows) && |rows| <= TWO31
    requires InOrder(keys[..], start, start + k, unique)
    modifies keys
    ensures Perm(old(keys[..]), keys[..], start, start + k + 1) && InOrder(keys[..], start, start + k + 1, unique)
    ensures Same(old(keys[..]), start, start + k + 1, unique) ==> Unmoved(old(keys[..]), keys[..], start, start + k + 1)
  {
    ghost var t := keys[..];
    var p := MoveUp(keys, start, k, unique, rows);
    SameDrops(t, keys[..], start, p, start + k, unique);
    DropPerm(t, keys[..], start, p, start + k);
    DropOrder(t, keys[..], start, p, start + k, unique);
  }

  method MoveUp(keys: array<Ent>, start: nat, k: nat, unique: bool, ghost rows: Rows) returns (p: nat)
    requires 1 <= k && start + k < keys.Length && AllIn(keys[..], start, start + k + 1, rows) && |rows| <= TWO31
    modifies keys
    ensures start <= p <= start + k && Drops(old(keys[..]), keys[..], p, start + k)
    ensures forall m {:trigger old(keys[m])} :: p <= m < start + k ==> Lt(old(keys[start + k]), old(keys[m]), unique)
    ensures p > start ==> !Lt(old(keys[start + k]), old(keys[p - 1]), unique)
  {
    ghost var t := keys[..];
    var x := keys[start + k];
    var i := start + k - 1;
    while i >= start && Qcomp(Key(x), Key(keys[i]), unique) < 0
      invariant start - 1 <= i < start + k
      invariant forall m {:trigger keys[m]} :: 0 <= m <= i || start + k < m < keys.Length ==> keys[m] == t[m]
      invariant forall m {:trigger keys[m]} :: i + 1 < m <= start + k ==> keys[m] == t[m - 1]
      invariant forall m {:trigger t[m]} :: i < m < start + k ==> Lt(x, t[m], unique)
    {
      assert From(t[i], rows) && From(t[start + k], rows);
      QcompSign(x, t[i], unique, rows);
      keys[i + 1] := keys[i];
      i := i - 1;
    }
    if i >= start {
      assert From(t[i], rows) && From(t[start + k], rows);
      QcompSign(x, t[i], unique, rows);
    }
    keys[i + 1] := x;
    p := i + 1;
  }

  lemma SameDrops(t: seq<Ent>, u: seq<Ent>, start: nat, p: nat, e: nat, unique: bool)
    requires start <= p && Drops(t, u, p, e) && forall m {:trigger t[m]} :: p <= m < e ==> Lt(t[e], t[m], unique)
    ensures Same(t, start, e + 1, unique) ==> Unmoved(t, u, start, e + 1)
  {
    if p < e { assert Lt(t[e], t[p], unique); } 
  }

  lemma DropPerm(t: seq<Ent>, u: seq<Ent>, start: nat, p: nat, e: nat)
    requires start <= p && Drops(t, u, p, e)
    ensures Perm(t, u, start, e + 1)
  {
    var a, b := t[start..p], t[p..e];
    assert t[start..e + 1] == a + b + [t[e]];
    assert u[start..e + 1] == a + [t[e]] + b;
    assert u[..start] == t[..start] && u[e + 1..] == t[e + 1..];
  }

  lemma DropOrder(t: seq<Ent>, u: seq<Ent>, start: nat, p: nat, e: nat, unique: bool)
    requires start <= p && Drops(t, u, p, e) && InOrder(t, start, e, unique)
    requires forall m {:trigger t[m]} :: p <= m < e ==> Lt(t[e], t[m], unique)
    requires p > start ==> !Lt(t[e], t[p - 1], unique)
    ensures InOrder(u, start, e + 1, unique)
  {
    forall i, j {:trigger u[i], u[j]} | start <= i < j < e + 1 ensures !Lt(u[j], u[i], unique) {
      var i', j' := if i <= p then i else i - 1, if j <= p then j else j - 1;
      if i != p && j != p { assert !Lt(t[j'], t[i'], unique); }
      else if j == p { assert i < p - 1 ==> !Lt(t[p - 1], t[i], unique); }
      else { assert Lt(t[e], t[j'], unique); }
    }
  }

  // ------------------------------------------------------------------- quicksort

  const INSORTSZ: nat := 256

  /** Scan up to the first item that is not before the pivot; one at or before `hi` is known. */
  method ScanUp(keys: array<Ent>, from: nat, x: Ent, unique: bool, ghost hi: nat, ghost rows: Rows) returns (i: nat)
    requires from <= hi < keys.Length && !Lt(keys[hi], x, unique)
    requires AllIn(keys[..], from, hi + 1, rows) && From(x, rows) && |rows| <= TWO31
    ensures from <= i <= hi && !Lt(keys[i], x, unique) && Below(keys[..], from, i, x, unique)
    ensures from < i ==> Lt(keys[from], x, unique)
  {
    i := from;
    assert From(keys[..][i], rows);
    QcompSign(keys[i], x, unique, rows);
    while Qcomp(Key(keys[i]), Key(x), unique) < 0
      invariant from <= i <= hi && Below(keys[..], from, i, x, unique) && (from < i ==> Lt(keys[from], x, unique))
      invariant Qcomp(Key(keys[i]), Key(x), unique) < 0 <==> Lt(keys[i], x, unique)
      decreases hi - i
    {
      i := i + 1;
      assert From(keys[..][i], rows);
      QcompSign(keys[i], x, unique, rows);
    }
  }

  /** Scan down likewise; `j` cannot pass `lo`, so it does not wrap below 0. */
  method ScanDown(keys: array<Ent>, from: nat, x: Ent, unique: bool, ghost lo: nat, ghost rows: Rows) returns (j: nat)
    requires lo <= from < keys.Length && !Lt(x, keys[lo], unique)
    requires AllIn(keys[..], lo, from + 1, rows) && From(x, rows) && |rows| <= TWO31
    ensures lo <= j <= from && !Lt(x, keys[j], unique) && Above(keys[..], j + 1, from + 1, x, unique)
    ensures j < from ==> Lt(x, keys[from], unique)
  {
    j := from;
    assert From(keys[..][j], rows);
    QcompSign(keys[j], x, unique, rows);
    while Qcomp(Key(keys[j]), Key(x), unique) > 0
      invariant lo <= j <= from && Above(keys[..], j + 1, from + 1, x, unique)
        && (j < from ==> Lt(x, keys[from], unique))
      invariant Qcomp(Key(keys[j]), Key(x), unique) > 0 <==> Lt(x, keys[j], unique)
      decreases j - lo
    {
      j := j - 1;
      assert From(keys[..][j], rows);
      QcompSign(keys[j], x, unique, rows);
    }
  }

  /** The range is split: nothing before `i` is after the pivot, nothing behind `j` before it. */
  ghost predicate Split(s: seq<Ent>, start: nat, end: nat, i: nat, j: nat, x: Ent, unique: bool) {
    && start <= i <= end <= |s| && start <= j < end
    && Below(s, start, i, x, unique) && Above(s, j + 1, end, x, unique)
  }

  lemma SplitSwap(s: seq<Ent>, start: nat, end: nat, i: nat, j: nat, i': nat, j': nat, x: Ent, unique: bool)
    requires Split(s, start, end, i, j, x, unique) && i <= i' <= j' <= j
    requires Below(s, i, i', x, unique) && Above(s, j' + 1, j + 1, x, unique) && !Lt(s[i'], x, unique)
      && !Lt(x, s[j'], unique)
    ensures var t := s[i' := s[j']][j' := s[i']];
      Below(t, start, i' + 1, x, unique) && Above(t, j', end, x, unique)
  {
  }

  /** Items outside i .. j stand where they stood in a mirror, the others where they stood. */
  ghost predicate Mirrored(was: seq<Ent>, s: seq<Ent>, start: nat, end: nat, i: nat, j: nat) {
    && |was| == |s| && start <= end <= |s| && i - start == end - 1 - j
    && (forall k {:trigger s[k]} :: start <= k < end && (k < i || j < k) ==> s[k] == was[start + end - 1 - k])
    && (forall k {:trigger s[k]} :: start <= k < end && i <= k <= j ==> s[k] == was[k])
  }

  lemma MirrorSwap(was: seq<Ent>, s: seq<Ent>, start: nat, end: nat, i: nat, j: nat)
    requires Mirrored(was, s, start, end, i, j) && start <= i <= j < end && 0 < j
    ensures Mirrored(was, s[i := s[j]][j := s[i]], start, end, i + 1, j - 1)
  {
  }

  /** What the loop of the quicksort keeps: the first two scans meet the pivot in the middle, later
      each scan meets an item the other one moved. */
  ghost predicate Dividing(was: seq<Ent>, s: seq<Ent>, start: nat, end: nat, i: nat, j: nat, pivot: Ent, unique: bool,
                           rows: Rows) {
    && start < end
    && Perm(was, s, start, end) && AllIn(was, start, end, rows) && AllIn(s, start, end, rows) && From(pivot, rows)
    && Split(s, start, end, i, j, pivot, unique)
    && if i == start && j == end - 1 then s[start + (end - start) / 2] == pivot else start < i && j < end - 1
  }

  /** Items that are all the same as the pivot are only mirrored. */
  ghost predicate Mirroring(was: seq<Ent>, s: seq<Ent>, start: nat, end: nat, i: nat, j: nat, pivot: Ent,
                            unique: bool) {
    Mirrored(was, s, start, end, i, j)
    && forall k {:trigger was[k]} :: start <= k < end ==> !Lt(was[k], pivot, unique) && !Lt(pivot, was[k], unique)
  }

  /** The loop of the quicksort. Items that are all the same come out in a mirror. */
  method Partition(keys: array<Ent>, start: nat, nitms: nat, unique: bool, ghost rows: Rows)
    returns (i: nat, j: nat, ghost x: Ent)
    requires 2 <= nitms && start + nitms <= keys.Length && AllIn(keys[..], start, start + nitms, rows)
      && |rows| <= TWO31
    modifies keys
    ensures Perm(old(keys[..]), keys[..], start, start + nitms) && AllIn(keys[..], start, start + nitms, rows)
    ensures Split(keys[..], start, start + nitms, i, j, x, unique) && j < i && start < i && j < start + nitms - 1
    ensures Same(old(keys[..]), start, start + nitms, unique) ==>
              Mirrored(old(keys[..]), keys[..], start, start + nitms, i, j) && (i == j + 1 || i == j + 2)
  {
    ghost var was, end, same := keys[..], start + nitms, Same(keys[..], start, start + nitms, unique);
    var pivot := keys[start + nitms / 2];
    x := pivot;
    i, j := start, start + nitms - 1;
    assert pivot == was[start + nitms / 2] && From(was[start + nitms / 2], rows);
    while i <= j
      invariant Dividing(was, keys[..], start, end, i, j, pivot, unique, rows)
      invariant same ==> Mirroring(was, keys[..], start, end, i, j, pivot, unique) && i <= j + 2
      decreases if i <= j then j - i + 1 else 0
    {
      i, j := SwapRound(keys, start, end, i, j, pivot, unique, was, same, rows);
    }
  }

  /** One round: two scans, and a swap unless they have passed each other. */
  method SwapRound(keys: array<Ent>, ghost start: nat, ghost end: nat, i0: nat, j0: nat, pivot: Ent, unique: bool,
                   ghost was: seq<Ent>, ghost same: bool, ghost rows: Rows)
    returns (i: nat, j: nat)
    requires i0 <= j0 && |rows| <= TWO31 && start + 2 <= end
      && Dividing(was, keys[..], start, end, i0, j0, pivot, unique, rows)
    requires same ==> Mirroring(was, keys[..], start, end, i0, j0, pivot, unique)
    modifies keys
    ensures Dividing(was, keys[..], start, end, i, j, pivot, unique, rows)
    ensures i <= j ==> j - i < j0 - i0
    ensures same ==> Mirroring(was, keys[..], start, end, i, j, pivot, unique) && i == i0 + 1 && j == j0 - 1
  {
    ghost var s := keys[..];
    ghost var hi, lo := Meets(was, s, start, end, i0, j0, pivot, unique, rows);
    i := ScanUp(keys, i0, pivot, unique, hi, rows);
    j := ScanDown(keys, j0, pivot, unique, lo, rows);
    if same { ScansStay(was, s, start, end, i0, j0, pivot, unique); }
    if i <= j {
      Swapped(was, s, start, end, i0, j0, i, j, pivot, unique, same, rows);
      Swap(keys, i, j);
      i, j := i + 1, j - 1;
    } else {
      Passed(was, s, start, end, i0, j0, i, j, pivot, unique, rows);
    }
  }

  method Swap(keys: array<Ent>, i: nat, j: nat)
    requires i <= j < keys.Length
    modifies keys
    ensures keys[..] == old(keys[..][i := keys[j]][j := keys[i]])
  {
    keys[i], keys[j] := keys[j], keys[i];
  }

  /** The items that the scans cannot pass. */
  lemma Meets(was: seq<Ent>, s: seq<Ent>, start: nat, end: nat, i: nat, j: nat, pivot: Ent, unique: bool, rows: Rows)
    returns (hi: nat, lo: nat)
    requires Dividing(was, s, start, end, i, j, pivot, unique, rows) && i <= j && start + 2 <= end
    ensures i <= hi < end && !Lt(s[hi], pivot, unique) && AllIn(s, i, hi + 1, rows)
    ensures start <= lo <= j && !Lt(pivot, s[lo], unique) && AllIn(s, lo, j + 1, rows) && (i == start ==> start < lo)
  {
    if i == start && j == end - 1 {
      hi, lo := start + (end - start) / 2, start + (end - start) / 2;
    } else {
      hi, lo := j + 1, i - 1;
    }
  }

  lemma ScansStay(was: seq<Ent>, s: seq<Ent>, start: nat, end: nat, i: nat, j: nat, pivot: Ent, unique: bool)
    requires Mirroring(was, s, start, end, i, j, pivot, unique) && start <= i <= j < end
    ensures !Lt(s[i], pivot, unique) && !Lt(pivot, s[j], unique)
  {
    assert s[i] == was[i] && s[j] == was[j];
  }

  lemma Swapped(was: seq<Ent>, s: seq<Ent>, start: nat, end: nat, i0: nat, j0: nat, i: nat, j: nat, pivot: Ent,
                unique: bool,
                same: bool, rows: Rows)
    requires Dividing(was, s, start, end, i0, j0, pivot, unique, rows) && i0 <= i <= j <= j0 && start < j
    requires Below(s, i0, i, pivot, unique) && Above(s, j + 1, j0 + 1, pivot, unique)
    requires !Lt(s[i], pivot, unique) && !Lt(pivot, s[j], unique)
    requires same ==> i == i0 && j == j0 && Mirroring(was, s, start, end, i0, j0, pivot, unique)
    ensures var t := s[i := s[j]][j := s[i]];
      && Dividing(was, t, start, end, i + 1, j - 1, pivot, unique, rows)
      && (same ==> Mirroring(was, t, start, end, i + 1, j - 1, pivot, unique))
  {
    var t := s[i := s[j]][j := s[i]];
    SplitSwap(s, start, end, i0, j0, i, j, pivot, unique);
    PermSwap(s, i, j, start, end);
    PermStep(was, s, t, start, end, start, end, rows);
    if same { MirrorSwap(was, s, start, end, i, j); }
  }

  lemma Passed(was: seq<Ent>, s: seq<Ent>, start: nat, end: nat, i0: nat, j0: nat, i: nat, j: nat, pivot: Ent,
               unique: bool, rows: Rows)
    requires Dividing(was, s, start, end, i0, j0, pivot, unique, rows) && i0 <= i < end && start <= j <= j0 && j < i
    requires Below(s, i0, i, pivot, unique) && Above(s, j + 1, j0 + 1, pivot, unique)
    requires !Lt(s[i], pivot, unique) && !Lt(pivot, s[j], unique)
    ensures Dividing(was, s, start, end, i, j, pivot, unique, rows)
  {
    SplitJoin(s, start, end, i0, j0, i, j, pivot, unique);
  }

  lemma SplitJoin(s: seq<Ent>, start: nat, end: nat, i: nat, j: nat, i': nat, j': nat, x: Ent, unique: bool)
    requires Split(s, start, end, i, j, x, unique) && i <= i' <= end && start <= j' <= j
    requires Below(s, i, i', x, unique) && Above(s, j' + 1, j + 1, x, unique)
    ensures Split(s, start, end, i', j', x, unique)
  {
  }

  /** Which of n items that are all the same comes first in the end. */
  function QFirst(n: nat): (q: nat)
    ensures 0 < n ==> q < n
    ensures INSORTSZ <= n ==> 0 < q
  {
    if n < INSORTSZ then 0 else n - 1 - QFirst(n / 2)
  }

  /** The first of n items from lo on is the one that QFirst tells. */
  ghost predicate Came(s: seq<Ent>, t: seq<Ent>, lo: nat, n: nat) {
    0 < n && lo + n <= |s| == |t| && t[lo] == s[lo + QFirst(n)]
  }

  lemma MirrorSame(was: seq<Ent>, s: seq<Ent>, start: nat, n: nat, i: nat, j: nat, unique: bool)
    requires Mirrored(was, s, start, start + n, i, j) && Same(was, start, start + n, unique) && j < i && INSORTSZ <= n
    requires i == j + 1 || i == j + 2
    ensures start <= j < start + n && j + 1 - start == n / 2 && Same(s, start, j + 1, unique)
    ensures forall t :: Came(s, t, start, n / 2) ==> Came(was, t, start, n)
  {
  }

  method QsortRange(keys: array<Ent>, start: nat, nitms: nat, unique: bool, ghost rows: Rows)
    requires start + nitms <= keys.Length && AllIn(keys[..], start, start + nitms, rows) && |rows| <= TWO31
    modifies keys
    ensures Perm(old(keys[..]), keys[..], start, start + nitms) && InOrder(keys[..], start, start + nitms, unique)
    ensures nitms > 0 && Same(old(keys[..]), start, start + nitms, unique) ==>
      Came(old(keys[..]), keys[..], start, nitms)
    decreases nitms, 2
  {
    if nitms < INSORTSZ {
      Insort(keys, start, nitms, unique, rows);
    } else {
      ghost var was := keys[..];
      var i, j, x := Divide(keys, start, nitms, unique, rows);
      SortBoth(keys, start, nitms, i, j, unique, x, was, rows);
    }
  }

  method Divide(keys: array<Ent>, start: nat, nitms: nat, unique: bool, ghost rows: Rows)
    returns (i: nat, j: nat, ghost x: Ent)
    requires INSORTSZ <= nitms && start + nitms <= keys.Length && AllIn(keys[..], start, start + nitms, rows)
      && |rows| <= TWO31
    modifies keys
    ensures Parted(old(keys[..]), keys[..], start, start + nitms, i, j, x, unique, rows)
    ensures Same(old(keys[..]), start, start + nitms, unique) ==>
      && j < start + nitms && Same(keys[..], start, j + 1, unique) && j + 1 - start == nitms / 2
      && forall t :: Came(keys[..], t, start, nitms / 2) ==> Came(old(keys[..]), t, start, nitms)
  {
    ghost var was := keys[..];
    i, j, x := Partition(keys, start, nitms, unique, rows);
    if Same(was, start, start + nitms, unique) {
      MirrorSame(was, keys[..], start, nitms, i, j, unique);
    }
  }

  /** Both sides of a split range. */
  method SortBoth(keys: array<Ent>, start: nat, nitms: nat, i: nat, j: nat, unique: bool, ghost x: Ent,
                  ghost was: seq<Ent>, ghost rows: Rows)
    requires start + nitms <= keys.Length && |rows| <= TWO31
    requires Parted(was, keys[..], start, start + nitms, i, j, x, unique, rows)
    modifies keys
    ensures Perm(was, keys[..], start, start + nitms) && InOrder(keys[..], start, start + nitms, unique)
    ensures Same(old(keys[..]), start, j + 1, unique) ==> Came(old(keys[..]), keys[..], start, j + 1 - start)
    decreases nitms, 1
  {
    SortLeft(keys, start, nitms, i, j, unique, x, was, rows);
    SortRight(keys, start, nitms, i, j, unique, x, was, rows);
  }

  /** `t` is a rearrangement of `was` and split. */
  ghost predicate Parted(was: seq<Ent>, t: seq<Ent>, start: nat, end: nat, i: nat, j: nat, x: Ent, unique: bool,
                         rows: Rows) {
    Perm(was, t, start, end) && AllIn(was, start, end, rows) && AllIn(t, start, end, rows)
    && Split(t, start, end, i, j, x, unique) && j < i && start < i && j < end - 1
  }

  method SortLeft(keys: array<Ent>, start: nat, nitms: nat, i: nat, j: nat, unique: bool, ghost x: Ent,
                  ghost was: seq<Ent>, ghost rows: Rows)
    requires start + nitms <= keys.Length && |rows| <= TWO31
    requires Parted(was, keys[..], start, start + nitms, i, j, x, unique, rows)
    modifies keys
    ensures Parted(was, keys[..], start, start + nitms, i, j, x, unique, rows)
      && InOrder(keys[..], start, j + 1, unique)
    ensures Same(old(keys[..]), start, j + 1, unique) ==> Came(old(keys[..]), keys[..], start, j + 1 - start)
    decreases nitms, 0
  {
    ghost var s := keys[..];
    SortPart(keys, start, j - start + 1, unique, rows);
    LeftSorted(was, s, keys[..], start, start + nitms, i, j, x, unique, rows);
  }

  method SortRight(keys: array<Ent>, start: nat, nitms: nat, i: nat, j: nat, unique: bool, ghost x: Ent,
                   ghost was: seq<Ent>, ghost rows: Rows)
    requires start + nitms <= keys.Length && |rows| <= TWO31
    requires Parted(was, keys[..], start, start + nitms, i, j, x, unique, rows)
      && InOrder(keys[..], start, j + 1, unique)
    modifies keys
    ensures Perm(was, keys[..], start, start + nitms) && InOrder(keys[..], start, start + nitms, unique)
    ensures keys[start] == old(keys[start])
    decreases nitms, 0
  {
    ghost var s := keys[..];
    SortPart(keys, i, start + nitms - i, unique, rows);
    PermOutside(s, keys[..], i, start + nitms, start);
    RightSorted(was, s, keys[..], start, start + nitms, i, j, x, unique, rows);
  }

  lemma LeftSorted(was: seq<Ent>, s: seq<Ent>, t: seq<Ent>, start: nat, end: nat, i: nat, j: nat, x: Ent, unique: bool,
                   rows: Rows)
    requires Perm(was, s, start, end) && AllIn(was, start, end, rows) && Split(s, start, end, i, j, x, unique)
      && j < i && Perm(s, t, start, j + 1)
    ensures Perm(was, t, start, end) && AllIn(t, start, end, rows) && Split(t, start, end, i, j, x, unique)
  {
    assert start <= j + 1 <= end;
    PermStep(was, s, t, start, j + 1, start, end, rows);
    LeftDone(s, t, start, end, i, j, x, unique);
  }

  lemma RightSorted(was: seq<Ent>, s: seq<Ent>, t: seq<Ent>, start: nat, end: nat, i: nat, j: nat, x: Ent,
                    unique: bool, rows: Rows)
    requires Perm(was, s, start, end) && AllIn(was, start, end, rows) && Split(s, start, end, i, j, x, unique)
      && j < i && Perm(s, t, i, end)
    requires InOrder(s, start, j + 1, unique) && InOrder(t, i, end, unique)
    ensures Perm(was, t, start, end) && InOrder(t, start, end, unique)
  {
    PermStep(was, s, t, i, end, start, end, rows);
    RightDone(s, t, start, end, i, j, x, unique);
  }

  /** A part of one item (or none) is left alone. */
  method SortPart(keys: array<Ent>, start: nat, nitms: nat, unique: bool, ghost rows: Rows)
    requires start + nitms <= keys.Length && AllIn(keys[..], start, start + nitms, rows) && |rows| <= TWO31
    modifies keys
    ensures Perm(old(keys[..]), keys[..], start, start + nitms) && InOrder(keys[..], start, start + nitms, unique)
    ensures nitms > 0 && Same(old(keys[..]), start, start + nitms, unique) ==>
      Came(old(keys[..]), keys[..], start, nitms)
    decreases nitms, 3
  {
    if nitms > 1 { QsortRange(keys, start, nitms, unique, rows); }
  }

  lemma LeftDone(s: seq<Ent>, t: seq<Ent>, start: nat, end: nat, i: nat, j: nat, x: Ent, unique: bool)
    requires Split(s, start, end, i, j, x, unique) && j < i && Perm(s, t, start, j + 1)
    ensures Split(t, start, end, i, j, x, unique)
  {
    PermBounds(s, t, start, j + 1, x, unique);
    assert Below(s, start, j + 1, x, unique);
    forall k {:trigger t[k]} | start <= k < i ensures !Lt(x, t[k],
        unique) { if k > j { PermOutside(s, t, start, j + 1, k); } }
    forall k {:trigger t[k]} | j + 1 <= k < end ensures !Lt(t[k], x, unique) { PermOutside(s, t, start, j + 1, k); }
  }

  lemma RightDone(s: seq<Ent>, t: seq<Ent>, start: nat, end: nat, i: nat, j: nat, x: Ent, unique: bool)
    requires Split(s, start, end, i, j, x, unique) && j < i && Perm(s, t, i, end)
    requires InOrder(s, start, j + 1, unique) && InOrder(t, i, end, unique)
    ensures InOrder(t, start, end, unique)
  {
    PermBounds(s, t, i, end, x, unique);
    assert Above(s, i, end, x, unique);
    forall k {:trigger t[k]} | start <= k < i ensures t[k] == s[k] { PermOutside(s, t, i, end, k); }
    forall k, l {:trigger t[k], t[l]} | start <= k < l < end ensures !Lt(t[l], t[k], unique) {
      if k <= j && l > j { assert !Lt(x, s[k], unique) && !Lt(t[l], x, unique); }
      else if k > j && l < i { assert !Lt(x, s[k], unique) && !Lt(s[l], x, unique); }
      else if k > j && k < i { assert !Lt(x, s[k], unique) && !Lt(t[l], x, unique); }
    }
  }
}
