/** Rolling a transaction back on a table with open indexes (server/dbe/transac.c:252-270). */
module Rollback {
  import opened Options
  import opened Entries
  import opened IndexFile
  import opened IndexState
  import opened IndexOps
  import opened Table
  import Transactions

  /** The bodies of the records, which is what the indexes are over. */
  function Bodies(recs: seq<Transactions.Rec>): (s: seq<Body>)
    ensures |s| == |recs|
  {
    seq(|recs|, i requires 0 <= i < |recs| => recs[i].body)
  }

  lemma UndoneBodies(recs: seq<Transactions.Rec>, e: Transactions.Entry)
    requires e.recno < |recs|
    ensures Bodies(Transactions.UndoOne(recs, e)) == Bodies(recs)[e.recno := e.image.body]
  {
  }

  // ---- whether it gets through, on the state before ----

  /** Undoing an entry, as a change of the table. */
  function ChangeOf(recs: seq<Transactions.Rec>, e: Transactions.Entry): Change
    requires e.recno < |recs|
  {
    Change(e.recno + 1, true, recs[e.recno].body, e.image.body)
  }

  /** The indexes after a change that none of them refuses. */
  ghost function Moved(files: seq<File>, exprs: seq<KeyExpr>, c: Change): (r: seq<File>)
    requires |files| == |exprs| && AllSound(files) && 0 < c.recno
    ensures |r| == |files| && AllSound(r)
  {
    MovedSound(files, exprs, c);
    seq(|files|, i requires 0 <= i < |files| => MovedOne(files[i], exprs[i], c))
  }

  ghost function MovedOne(f: File, expr: KeyExpr, c: Change): File
    requires Sound(f)
  {
    var o := Updated(f, expr, c); if o.Now? then o.f else f
  }

  lemma MovedSound(files: seq<File>, exprs: seq<KeyExpr>, c: Change)
    requires |files| == |exprs| && AllSound(files) && 0 < c.recno
    ensures forall i {:trigger files[i]} :: 0 <= i < |files| ==> Sound(MovedOne(files[i], exprs[i], c))
  {
    forall i {:trigger files[i]} | 0 <= i < |files| ensures Sound(MovedOne(files[i], exprs[i], c)) {
      if c.del { ChangedIs(files[i], c.recno, exprs[i](c.was), exprs[i](c.body)); }
      else if exprs[i](c.body).Some? { InsertedIs(files[i], Ent(exprs[i](c.body).v, c.recno)); }
    }
  }

  /**
   * The first entry of the log that cannot be undone, going through it from entry n - 1 down: an
   * index refuses the keys that its record had. None when all of them can be.
   */
  ghost function Blocked(files: seq<File>, exprs: seq<KeyExpr>, recs: seq<Transactions.Rec>,
                         log: seq<Transactions.Entry>, n: nat): (b: Option<nat>)
    requires n <= |log| && |files| == |exprs| && AllSound(files)
    requires forall i :: 0 <= i < n ==> log[i].recno < |recs|
    ensures b.Some? ==> b.v < n
    decreases n
  {
    if n == 0 then None
    else
      var e := log[n - 1];
      if recs[e.recno].body == e.image.body then Blocked(files, exprs, recs, log, n - 1)
      else
        var c := ChangeOf(recs, e);
        if FirstRefusal(files, exprs, c) < |files| then Some(n - 1)
        else Blocked(Moved(files, exprs, c), exprs, Transactions.UndoOne(recs, e), log, n - 1)
  }

  /** Where a rollback stopped: entry n was written back, and an index refused its keys. */
  ghost predicate Halted(tab: Table, log: seq<Transactions.Entry>, n: nat, now: seq<Transactions.Rec>)
    reads tab, tab.indexes
  {
    n < |log|
    && exists prev: seq<Transactions.Rec>, at: nat,
        was: seq<File> {:trigger HaltedAt(tab, log[n], now, prev, at, was)} ::
         HaltedAt(tab, log[n], now, prev, at, was)
  }

  ghost predicate HaltedAt(tab: Table, e: Transactions.Entry, now: seq<Transactions.Rec>, prev: seq<Transactions.Rec>,
                           at: nat, was: seq<File>)
    reads tab, tab.indexes
  {
    && e.recno < |prev| && now == Transactions.UndoOne(prev, e) && at < |tab.indexes|
    && Stopped(tab.indexes, tab.exprs, at, Bodies(now), Bodies(prev), ChangeOf(prev, e), was)
  }

  // ---- the code ----

  /**
   * Undo a log, last entry first, bringing the indexes up to date after each record. It stops at
   * the entry that Blocked names, and at none if there is none. Then the records are as the log
   * has them and every index lists exactly their keys.
   */
  method RbkRollback(tab: Table, log: seq<Transactions.Entry>, ghost recs: seq<Transactions.Rec>)
    returns (rc: Code, n: nat, ghost now: seq<Transactions.Rec>)
    requires tab.InStep() && tab.recs == Bodies(recs)
    requires forall i :: 0 <= i < |log| ==> log[i].recno < |recs|
    modifies tab, tab.indexes
    ensures rc == OK || rc == INVALID_ENTRY
    ensures var b := old(Blocked(tab.IndexFiles(), tab.exprs, recs, log, |log|));
      (rc == INVALID_ENTRY <==> b.Some?) && (if rc == OK then n == 0 else n == b.v && Halted(tab, log, n, now))
    ensures n <= |log| && tab.recs == Bodies(now)
    ensures Transactions.UndoAll(recs, log, |log|) == Transactions.UndoAll(now, log, n)
    ensures rc == OK ==> tab.InStep() && tab.recs == Bodies(Transactions.UndoAll(recs, log, |log|))
  {
    n, rc, now := |log|, OK, recs;
    ghost var whole := Transactions.UndoAll(recs, log, |log|);
    ghost var blocked := Blocked(tab.IndexFiles(), tab.exprs, recs, log, |log|);
    while n > 0
      invariant rc == OK && Undoing(tab, log, n, now, whole, blocked)
    {
      n := n - 1;
      rc, now := UndoOne(tab, log, n, now, whole, blocked);
      if rc != OK { return; }
    }
  }

  /** With n entries still to undo, what is left leads where the whole was to lead. */
  ghost predicate Undoing(tab: Table, log: seq<Transactions.Entry>, n: nat, now: seq<Transactions.Rec>,
                          whole: seq<Transactions.Rec>, blocked: Option<nat>)
    reads tab, tab.indexes
  {
    && tab.InStep() && tab.recs == Bodies(now)
    && n <= |log| && (forall i :: 0 <= i < n ==> log[i].recno < |now|)
    && whole == Transactions.UndoAll(now, log, n) && blocked == Blocked(tab.IndexFiles(), tab.exprs, now, log, n)
  }

  /** One entry is undone, unless an index refuses its keys. */
  method UndoOne(tab: Table, log: seq<Transactions.Entry>, n: nat, ghost recs: seq<Transactions.Rec>,
                 ghost whole: seq<Transactions.Rec>, ghost blocked: Option<nat>)
    returns (rc: Code, ghost now: seq<Transactions.Rec>)
    requires n < |log| && Undoing(tab, log, n + 1, recs, whole, blocked)
    modifies tab, tab.indexes
    ensures now == Transactions.UndoOne(recs, log[n]) && tab.recs == Bodies(now)
    ensures rc == OK || rc == INVALID_ENTRY
    ensures rc == INVALID_ENTRY <==>
      recs[log[n].recno].body != log[n].image.body && old(tab.Refusing(ChangeOf(recs, log[n]))) < |tab.indexes|
    ensures rc == OK ==> Undoing(tab, log, n, now, whole, blocked)
    ensures rc != OK ==> blocked == Some(n) && whole == Transactions.UndoAll(now, log, n) && Halted(tab, log, n, now)
  {
    ghost var e, was := log[n], tab.IndexFiles();
    UndoneBodies(recs, e);
    now := Transactions.UndoOne(recs, e);
    ghost var at;
    rc, at := tab.StoreUpdate(log[n].recno + 1, log[n].image.body);
    if rc == OK {
      if recs[e.recno].body != e.image.body { FollowedIs(was, tab.IndexFiles(), tab.exprs, ChangeOf(recs, e)); }
    } else {
      assert HaltedAt(tab, e, now, recs, at, was);
    }
  }

  lemma FollowedIs(was: seq<File>, files: seq<File>, exprs: seq<KeyExpr>, c: Change)
    requires Followed(was, files, exprs, c, |files|) && 0 < c.recno
    ensures Moved(was, exprs, c) == files
  {
    forall i | 0 <= i < |files| ensures Moved(was, exprs, c)[i] == files[i] {
      assert Now(files[i]) == Updated(was[i], exprs[i], c);
    }
  }
}
