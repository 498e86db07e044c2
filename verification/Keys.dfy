/** Character keys (server/dbe/ndx.c:527-537): how two are compared, and how many fit on a page. */
module Keys {
  newtype byte = b: int | 0 <= b < 256

  /** A key read as a number, its first byte the most significant. */
  function Rank(k: seq<byte>): int
    decreases |k|
  {
    if k == [] then 0 else Rank(k[..|k| - 1]) * 256 + k[|k| - 1] as int
  }

  function Sign(d: int): int { if d > 0 then 1 else if d < 0 then -1 else 0 }

  /** How much of the target counts: a NUL after its first byte ends it, and makes what is left match. */
  function Counted(p: seq<byte>, i: nat): (n: nat)
    requires i <= |p|
    ensures i <= n <= |p|
    decreases |p| - i
  {
    if i == |p| || (i > 0 && p[i] == 0) then i else Counted(p, i + 1)
  }

  /** skcmp: the order of the numbers, as far as the target counts. */
  method Skcmp(p: seq<byte>, q: seq<byte>) returns (e: int)
    requires |p| == |q|
    ensures var n := Counted(p, 0); e == Sign(Rank(p[..n]) - Rank(q[..n]))
  {
    var i := 0;
    while i < |p|
      invariant i <= |p| && p[..i] == q[..i] && Counted(p, 0) == Counted(p, i)
    {
      var c1, c2 := p[i], q[i];
      if i > 0 && c1 == 0 { return 0; }
      if c1 != c2 {
        FirstDiffers(p, q, i, Counted(p, i));
        return if c1 > c2 then 1 else -1;
      }
      assert p[..i + 1] == p[..i] + [c1] && q[..i + 1] == q[..i] + [c2];
      i := i + 1;
    }
    e := 0;
  }

  /** The first byte that differs decides the order of the numbers. */
  lemma {:induction false} FirstDiffers(p: seq<byte>, q: seq<byte>, i: nat, n: nat)
    requires |p| == |q| && i < n <= |p| && p[..i] == q[..i] && p[i] != q[i]
    ensures Rank(p[..n]) != Rank(q[..n]) && (Rank(p[..n]) > Rank(q[..n]) <==> p[i] > q[i])
    decreases n
  {
    assert p[..n][..n - 1] == p[..n - 1] && q[..n][..n - 1] == q[..n - 1];
    if i < n - 1 { FirstDiffers(p, q, i, n - 1); }
  }

  predicate NulFree(p: seq<byte>) { forall i :: 0 < i < |p| ==> p[i] != 0 }

  lemma {:induction false} CountsAll(p: seq<byte>, i: nat)
    requires NulFree(p) && i <= |p|
    ensures Counted(p, i) == |p|
    decreases |p| - i
  {
    if i < |p| { CountsAll(p, i + 1); }
  }

  /** What the comparison of two keys should say, and what it says. */
  ghost predicate Right(p: seq<byte>, q: seq<byte>)
    requires |p| == |q|
  {
    var n := Counted(p, 0);
    Sign(Rank(p[..n]) - Rank(q[..n])) == Sign(Rank(p) - Rank(q))
  }

  /**
   * Of keys without NUL bytes the comparison is the order of their ranks, so equal keys have equal
   * ranks and the index may be read as one over numbers. Different keys have different ranks.
   */
  lemma RankOrders(p: seq<byte>, q: seq<byte>)
    requires |p| == |q| && NulFree(p)
    ensures Right(p, q)
    ensures Rank(p) == Rank(q) <==> p == q
  {
    CountsAll(p, 0);
    assert p[..|p|] == p && q[..|q|] == q;
    if p != q {
      var i := Differ(p, q);
      FirstDiffers(p, q, i, |p|);
    }
  }

  /** The first place where two keys differ. */
  lemma {:induction false} Differ(p: seq<byte>, q: seq<byte>) returns (i: nat)
    requires |p| == |q| && p != q
    ensures i < |p| && p[..i] == q[..i] && p[i] != q[i]
    decreases |p|
  {
    var n := |p| - 1;
    if p[..n] != q[..n] {
      i := Differ(p[..n], q[..n]);
      assert p[..n][..i] == p[..i] && q[..n][..i] == q[..i];
    } else {
      i := n;
      assert p == p[..n] + [p[n]] && q == q[..n] + [q[n]];
    }
  }

  lemma {:induction false} CountedStops(p: seq<byte>, i: nat)
    requires i <= |p|
    ensures Counted(p, i) < |p| ==> p[Counted(p, i)] == 0 && (i > 0 || |p| > 0 ==> 0 < Counted(p, i))
    ensures forall k :: i <= k < Counted(p, i) && 0 < k ==> p[k] != 0
    decreases |p| - i
  {
    if i < |p| && !(i > 0 && p[i] == 0) { CountedStops(p, i + 1); }
  }

  /** Two keys are compared rightly exactly if they are equal, or differ before the NUL. */
  lemma PairExactly(p: seq<byte>, q: seq<byte>)
    requires |p| == |q|
    ensures Right(p, q) <==> p == q || p[..Counted(p, 0)] != q[..Counted(p, 0)]
  {
    var n := Counted(p, 0);
    if p != q {
      var i := Differ(p, q);
      assert p[..|p|] == p && q[..|q|] == q;
      FirstDiffers(p, q, i, |p|);
      if i < n {
        FirstDiffers(p, q, i, n);
        assert p[..n][i] != q[..n][i];
      } else {
        assert p[..n] == p[..i][..n] == q[..i][..n] == q[..n];
      }
    }
  }

  /** A target is compared rightly with every key exactly if it has no NUL behind its first byte. */
  lemma NulExactly(p: seq<byte>)
    ensures NulFree(p) <==> forall q: seq<byte> | |q| == |p| :: Right(p, q)
  {
    if NulFree(p) {
      forall q: seq<byte> | |q| == |p| ensures Right(p, q) { RankOrders(p, q); }
    } else {
      var n := Counted(p, 0);
      CountedStops(p, 0);
      var q := p[n := 1];
      assert p[..n] == q[..n] && p[n] != q[n];
      PairExactly(p, q);
      assert !Right(p, q);
    }
  }

  /** A NUL in front does no harm. */
  lemma NulInFront(x: byte, y: byte)
    requires x != 0
    ensures Right([0, x], [0, y]) && Counted([0, x], 0) == 2
  {
    assert Counted([0, x], 1) == 2;
    PairExactly([0, x], [0, y]);
    if x != y { assert [0, x][..2] == [0, x] && [0, y][..2] == [0, y] && [0, x][1] != [0, y][1]; }
  }

  /** So a NUL makes keys of different rank compare equal, AB and A with a NUL for example. */
  lemma NulMatches()
    ensures var p: seq<byte>, q: seq<byte> := [65, 0], [65, 66]; Counted(p, 0) == 1 && p[..1] == q[..1] && !Right(p, q)
  {
    var p: seq<byte>, q: seq<byte> := [65, 0], [65, 66];
    assert Counted(p, 1) == 1;
    assert p[..1] == [65] && q[..1] == [65];
    PairExactly(p, q);
  }

  // ---- page capacity (server/dbe/ndx.c:58-65) ----

  const HBPAGESIZE: nat := 4096
  const MAXKEYSZ: nat := 1024
  const SZ_WORD: nat := 2
  const SZ_PAGENO: nat := 8
  const SZ_RECNO: nat := 8
  const ALIGNMENT_SIZE: nat := 4

  function EntrySize(keylen: nat): nat {
    SZ_PAGENO + SZ_RECNO + (keylen / ALIGNMENT_SIZE) * ALIGNMENT_SIZE +
        (if keylen % ALIGNMENT_SIZE != 0 then ALIGNMENT_SIZE else 0)
  }

  function NoRecPP(keylen: nat): nat { (HBPAGESIZE - SZ_WORD - SZ_WORD - SZ_PAGENO) / EntrySize(keylen) }

  /** An entry takes 16 bytes and its key, rounded up to a multiple of 4. */
  lemma EntryTakes(keylen: nat)
    ensures EntrySize(keylen) % 4 == 0 && 16 + keylen <= EntrySize(keylen) < 16 + keylen + 4
    ensures HBPAGESIZE == 4096 && MAXKEYSZ == 1024
  {
    var q, r := keylen / 4, keylen % 4;
    assert keylen == 4 * q + r && (q * 4) % 4 == 0;
  }

  /**
   * A page takes at least three entries of any allowed key, which is more than the two the tree
   * needs to be split; the entries and the pointer behind the last of them fit on the page, and
   * one more entry would not.
   */
  lemma PageTakes(keylen: nat)
    requires keylen <= MAXKEYSZ
    ensures 3 <= NoRecPP(keylen) && keylen <= EntrySize(keylen) - SZ_PAGENO - SZ_RECNO
    ensures SZ_WORD + SZ_WORD + NoRecPP(keylen) * EntrySize(keylen) + SZ_PAGENO <= HBPAGESIZE
    ensures HBPAGESIZE < SZ_WORD + SZ_WORD + (NoRecPP(keylen) + 1) * EntrySize(keylen) + SZ_PAGENO
  {
    var d, e := HBPAGESIZE - SZ_WORD - SZ_WORD - SZ_PAGENO, EntrySize(keylen);
    assert e <= 1040 && d == 4084;
    assert d == (d / e) * e + d % e;
    assert (d / e + 1) * e == (d / e) * e + e;
    assert (d / e) * e > d - e && 2 * e < d - e;
  }
}
