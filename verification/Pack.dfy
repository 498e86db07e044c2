/** PACK: closing up the records in place (server/dbe/pack.c:55-76). */
module Pack {
  const DEL_MKR: char := '*'

  datatype Rec = Rec(mk: char, body: string)

  predicate IsDelete(r: Rec) { r.mk == DEL_MKR }

  /** The records that are not deleted, in their order. */
  function Kept(s: seq<Rec>): seq<Rec>
    decreases |s|
  {
    if s == [] then [] else (if IsDelete(s[0]) then [] else [s[0]]) + Kept(s[1..])
  }

  lemma {:induction false} KeptEnd(s: seq<Rec>, r: Rec)
    ensures Kept(s + [r]) == Kept(s) + (if IsDelete(r) then [] else [r])
    decreases |s|
  {
    if s == [] {
      assert [r][1..] == [];
    } else {
      var t, u := s[1..], s + [r];
      assert u[0] == s[0] && u[1..] == t + [r];
      KeptEnd(t, r);
    }
  }

  lemma KeptNext(s: seq<Rec>, k: nat)
    requires k < |s|
    ensures Kept(s[..k + 1]) == Kept(s[..k]) + (if IsDelete(s[k]) then [] else [s[k]])
  {
    assert s[..k + 1] == s[..k] + [s[k]];
    KeptEnd(s[..k], s[k]);
  }

  /** Deleted records from k on add nothing. */
  lemma {:induction false} KeptSkips(s: seq<Rec>, k: nat, n: nat)
    requires k <= n <= |s| && forall i :: k <= i < n ==> IsDelete(s[i])
    ensures Kept(s[..n]) == Kept(s[..k])
    decreases n
  {
    if k < n {
      KeptSkips(s, k, n - 1);
      KeptNext(s, n - 1);
    }
  }

  /** The first record from i on that is deleted, or that is not. */
  function First(s: seq<Rec>, i: nat, deleted: bool): (k: nat)
    requires i <= |s|
    ensures i <= k <= |s| && (k < |s| ==> IsDelete(s[k]) == deleted)
    ensures forall j :: i <= j < k ==> IsDelete(s[j]) != deleted
    decreases |s| - i
  {
    if i == |s| || IsDelete(s[i]) == deleted then i else First(s, i + 1, deleted)
  }

  /** The record that is moved first: the first undeleted one behind a deleted one, if there is one. */
  function Mover(s: seq<Rec>): (k: nat)
    ensures k <= |s|
  {
    First(s, First(s, 0, true), false)
  }

  lemma {:induction false} AllKept(s: seq<Rec>, n: nat)
    requires n <= |s| && forall i :: 0 <= i < n ==> !IsDelete(s[i])
    ensures Kept(s[..n]) == s[..n]
    decreases n
  {
    if n > 0 {
      AllKept(s, n - 1);
      KeptNext(s, n - 1);
    }
  }

  /** Nothing but deleted records from the first of them on. */
  lemma NoneKept(s: seq<Rec>, d: nat)
    requires First(s, 0, true) == d && First(s, d, false) == |s|
    ensures Kept(s) == s[..d]
  {
    AllKept(s, d);
    KeptSkips(s, d, |s|);
    assert s[..|s|] == s;
  }

  /** Every deleted record up to n overwritten by record m. */
  function Smeared(s: seq<Rec>, m: nat, n: nat): seq<Rec>
    requires m < |s|
  {
    seq(|s|, i requires 0 <= i < |s| => if i < n && IsDelete(s[i]) then s[m] else s[i])
  }

  /** The records a table is left with. */
  function Packed(s: seq<Rec>, etof: bool): seq<Rec> {
    if etof && Mover(s) < |s| then Smeared(s, Mover(s), |s|) else Kept(s)
  }

  lemma {:induction false} KeptCount(s: seq<Rec>)
    ensures |Kept(s)| <= |s| && ((exists i :: 0 <= i < |s| && IsDelete(s[i])) ==> |Kept(s)| < |s|)
    decreases |s|
  {
    if s != [] {
      KeptCount(s[1..]);
      if i :| 0 <= i < |s| && IsDelete(s[i]) {
        if i > 0 { assert s[1..][i - 1] == s[i]; }
      }
    }
  }

  /**
   * The table is packed as it should be exactly if the cursor is not at either end of it, or no
   * record has to be moved.
   */
  lemma PacksIff(s: seq<Rec>, etof: bool)
    ensures Packed(s, etof) == Kept(s) <==> !etof || Mover(s) == |s|
  {
    if etof && Mover(s) < |s| {
      var d := First(s, 0, true);
      assert IsDelete(s[d]);
      KeptCount(s);
    }
  }

  /** Otherwise no record goes: each deleted one is overwritten by the first undeleted record that stands
      behind a deleted one. */
  lemma Otherwise(s: seq<Rec>) returns (m: nat)
    requires Packed(s, true) != Kept(s)
    ensures m < |s| && s[m].mk != '*' && (exists j :: 0 <= j < m && s[j].mk == '*')
    ensures forall i, j :: 0 <= j < i < m && s[j].mk == '*' ==> s[i].mk == '*'
    ensures |Packed(s, true)| == |s|
    ensures forall i :: 0 <= i < |s| ==> Packed(s, true)[i] == if s[i].mk == '*' then s[m] else s[i]
  {
    PacksIff(s, true);
    m := Mover(s);
    var d := First(s, 0, true);
    assert s[d].mk == '*' && d < m;
  }

  /** A table of three records whose first is deleted, packed with the cursor at its end: the
      second record is there twice. */
  lemma Duplicates(a: string, b: string, c: string)
    ensures var s := [Rec('*', a), Rec(' ', b), Rec(' ', c)];
      Kept(s) == s[1..] && Packed(s, true) == [s[1], s[1], s[2]]
  {
    var s := [Rec('*', a), Rec(' ', b), Rec(' ', c)];
    assert s[1..][1..] == [s[2]] && [s[2]][1..] == [];
    assert Kept([s[2]]) == [s[2]];
    assert First(s, 0, true) == 0 && First(s, 1, false) == 1;
  }

  /** Records up to `to` are those kept of the first k, and from there to k all are deleted. */
  ghost predicate Closing(rs: seq<Rec>, s: seq<Rec>, to: nat, from: nat, k: nat) {
    Gap(rs, s, to, k) && (if from == 0 then to == k else to <= from < k)
  }

  ghost predicate Gap(rs: seq<Rec>, s: seq<Rec>, to: nat, k: nat) {
    && to <= k <= |rs| == |s| && rs[..to] == Kept(s[..k])
    && (forall i :: to <= i < k ==> IsDelete(rs[i])) && (forall i :: k <= i < |s| ==> rs[i] == s[i])
  }

  /** More deleted records are passed over. */
  lemma GapGrows(rs: seq<Rec>, s: seq<Rec>, to: nat, k: nat, at: nat)
    requires Gap(rs, s, to, k) && k <= at <= |s| && forall i :: k <= i < at ==> IsDelete(rs[i])
    ensures Gap(rs, s, to, at)
  {
    KeptSkips(s, k, at);
  }

  /** The record behind the gap moves to its front. */
  lemma GapMoves(rs: seq<Rec>, s: seq<Rec>, to: nat, at: nat)
    requires Gap(rs, s, to, at) && to < at < |s| && !IsDelete(rs[at])
    ensures Gap(rs[at := rs[at].(mk := DEL_MKR)][to := rs[at]], s, to + 1, at + 1)
  {
    var t := rs[at := rs[at].(mk := DEL_MKR)][to := rs[at]];
    KeptNext(s, at);
    assert t[..to + 1] == rs[..to] + [s[at]];
  }

  class Table {
    const recs: array<Rec>
    var reccnt: nat
    var etof: bool                  // the cursor is beyond either end
    var crntrec: nat                // counted from 0
    var buf: Rec

    ghost predicate Valid() reads this { reccnt == recs.Length }

    constructor (recs: array<Rec>, etof: bool)
      ensures Valid() && this.recs == recs && this.etof == etof
    {
      this.recs, this.etof, reccnt, crntrec, buf := recs, etof, recs.Length, 0, Rec(' ', "");
    }

    /** gorec, which does not look at the cursor flags. */
    method GoRec(r: nat)
      requires r < recs.Length
      modifies this`crntrec, this`buf
      ensures crntrec == r && buf == recs[r]
    {
      crntrec, buf := r, recs[r];
    }

    /** del_recall(DEL_MKR), which does nothing with the cursor beyond either end. */
    method DelRecall()
      requires crntrec < recs.Length && buf == recs[crntrec]
      modifies this`buf, recs
      ensures recs[..] == if etof || IsDelete(old(buf)) then old(recs[..]) else old(recs[..])[crntrec := buf]
      ensures buf == if etof then old(buf) else old(buf).(mk := DEL_MKR)
    {
      if !etof && buf.mk != DEL_MKR {
        buf := buf.(mk := DEL_MKR);
        recs[crntrec] := buf;
      }
    }

    /** store_rec. */
    method StoreRec()
      requires crntrec < recs.Length
      modifies recs
      ensures recs[..] == old(recs[..])[crntrec := buf]
    {
      recs[crntrec] := buf;
    }

    /** The search for the next record to move, from `from` on. */
    method Seek(from: nat) returns (at: nat)
      requires from <= recs.Length
      modifies this`crntrec, this`buf
      ensures at == First(recs[..], from, false)
      ensures at < recs.Length ==> crntrec == at && buf == recs[at]
    {
      at := from;
      while at < recs.Length
        invariant from <= at <= recs.Length && First(recs[..], from, false) == First(recs[..], at, false)
      {
        GoRec(at);
        if !IsDelete(buf) { return; }
        at := at + 1;
      }
    }

    /** Move the record that is current to place `to`. */
    method Move(to: nat)
      requires crntrec < recs.Length && to < recs.Length && to != crntrec && buf == recs[crntrec] && !IsDelete(buf)
      modifies this`crntrec, this`buf, recs
      ensures var s, f := old(recs[..]), old(crntrec);
        recs[..] == (if etof then s else s[f := s[f].(mk := DEL_MKR)])[to := s[f]]
    {
      var recbuf := buf;
      DelRecall();
      GoRec(to);
      buf := recbuf;
      StoreRec();
    }

    /** With the cursor beyond an end nothing is marked deleted, and the same record is moved again and again. */
    ghost predicate Smearing(s: seq<Rec>, to: nat, from: nat)
      reads recs
    {
      && to <= recs.Length == |s|
      && (if from == 0 then recs[..] == s && First(s, 0, true) >= to
          else from == Mover(s) < |s| && recs[..] == Smeared(s, from, to) && First(s, 0, true) < to)
    }

    ghost predicate Under(s: seq<Rec>, to: nat, from: nat, k: nat)
      reads this, recs
    {
      if etof then Smearing(s, to, from) else Closing(recs[..], s, to, from, k)
    }

    /** A deleted record at `to`: the next one to move takes its place. */
    method Refill(to: nat, from: nat, ghost s: seq<Rec>, ghost k: nat) returns (at: nat, ghost k': nat)
      requires to < recs.Length && IsDelete(recs[to]) && !etof && Closing(recs[..], s, to, from, k)
      modifies this`crntrec, this`buf, recs
      ensures at <= recs.Length
      ensures at < recs.Length ==> Closing(recs[..], s, to + 1, at, k')
      ensures at == recs.Length ==> recs[..to] == Kept(s) && forall i :: to <= i < recs.Length ==> IsDelete(recs[i])
    {
      ghost var k0 := if from == 0 then to + 1 else k;
      GapGrows(recs[..], s, to, k, k0);
      at := Seek(if from == 0 then to + 1 else from);
      GapGrows(recs[..], s, to, k0, at);
      k' := at + 1;
      if at < recs.Length {
        GapMoves(recs[..], s, to, at);
        Move(to);
      } else {
        assert s[..at] == s;
      }
    }

    method RefillAtEnd(to: nat, from: nat, ghost s: seq<Rec>) returns (at: nat)
      requires to < recs.Length && IsDelete(recs[to]) && etof && Smearing(s, to, from)
      modifies this`crntrec, this`buf, recs
      ensures at <= recs.Length
      ensures at < recs.Length ==> Smearing(s, to + 1, at)
      ensures at == recs.Length ==> Mover(s) == |s| && recs[..to] == Kept(s)
    {
      at := Seek(if from == 0 then to + 1 else from);
      if at < recs.Length {
        Move(to);
        assert recs[..] == Smeared(s, at, to + 1);
      } else {
        NoneKept(s, to);
      }
    }

    /** A record at `to` that stays there. */
    lemma Pass(to: nat, from: nat, s: seq<Rec>, k: nat)
      requires to < recs.Length && !IsDelete(recs[to]) && Under(s, to, from, k)
      ensures Under(s, to + 1, from, if etof then k else k + 1)
    {
      assert recs[..to + 1] == recs[..to] + [recs[to]];
      if !etof { KeptNext(s, k); }
    }

    /** The places have run out. */
    lemma Through(s: seq<Rec>, from: nat, k: nat)
      requires Under(s, recs.Length, from, k)
      ensures recs[..recs.Length] == Packed(s, etof)
    {
      assert s[..|s|] == s && recs[..recs.Length] == recs[..];
      if etof && from == 0 { AllKept(s, |s|); }
    }

    /**
     * The compaction. Its count of records covers the packed ones; without any of them left the
     * cursor is set beyond both ends.
     */
    method DbPack()
      requires Valid()
      modifies this, recs
      ensures reccnt <= recs.Length && recs[..reccnt] == Packed(old(recs[..]), old(etof))
      ensures etof == (old(etof) || reccnt == 0)
      ensures !old(etof) ==> forall i :: reccnt <= i < recs.Length ==> IsDelete(recs[i])
    {
      ghost var s, k := recs[..], 0;
      var to, from, done := 0, 0, false;
      while to < recs.Length && !done
        invariant to <= recs.Length && etof == old(etof) && Valid()
        invariant !done ==> Under(s, to, from, k)
        invariant done ==> recs[..to] == Packed(s, etof)
        invariant done && !etof ==> forall i :: to <= i < recs.Length ==> IsDelete(recs[i])
        decreases recs.Length - to, !done
      {
        GoRec(to);
        if IsDelete(buf) {
          if etof { from := RefillAtEnd(to, from, s); } else { from, k := Refill(to, from, s, k); }
          done := from == recs.Length;
          if !done { to := to + 1; }
        } else {
          Pass(to, from, s, k);
          to, k := to + 1, if etof then k else k + 1;
        }
      }
      if !done { Through(s, from, k); }
      reccnt := to;
      if reccnt == 0 { etof := true; }
    }
  }
}
