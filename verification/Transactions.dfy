/** Transactions over the records of one table: the marker that keeps others out,
    the log of each transaction, commit and rollback, for any interleaving of sessions.

    A record update, and the treatment of one logged record by commit or rollback, is one
    atomic step: the record is locked for its duration. Records count from 0. */
module Transactions {
  import opened Options
  const VAL_MKR: char := ' '
  const TRANS_MKR: char := '!'

  datatype Rec = Rec(mk: char, body: string)
  /** A log entry: the record as it was before the transaction changed it. */
  datatype Entry = Entry(recno: nat, image: Rec)

  datatype Phase = Idle | Active | Committing | Undoing
  /** A session; `left` entries of its log are still to be treated. */
  datatype Sess = Sess(phase: Phase, log: seq<Entry>, left: nat)
  /** `stuck` are the records that a rollback left marked although nobody owns them. */
  datatype Sys = Sys(recs: seq<Rec>, sess: seq<Sess>, stuck: set<nat>)

  datatype Error = TRANSAC_EXCL | INVALID_REC

  datatype Event =
    | Begin(s: nat)
    | Update(s: nat, r: nat, body: string)
    | Commit(s: nat) | CommitNext(s: nat)
    | Rollback(s: nat) | UndoNext(s: nat)

  // ------------------------------------------------------ one record at a time

  predicate MayUpdate(recs: seq<Rec>, r: nat) { r < |recs| && recs[r].mk == VAL_MKR }

  function UpdateOne(recs: seq<Rec>, r: nat, body: string, inTrans: bool): seq<Rec>
    requires r < |recs|
  {
    recs[r := Rec(if inTrans then TRANS_MKR else recs[r].mk, body)]
  }

  function CommitOne(recs: seq<Rec>, e: Entry): (now: seq<Rec>)
    ensures |now| == |recs|
  {
    if e.recno < |recs| then recs[e.recno := recs[e.recno].(mk := VAL_MKR)] else recs
  }

  /** The logged image is written back only where the body differs. */
  function UndoOne(recs: seq<Rec>, e: Entry): (now: seq<Rec>)
    ensures |now| == |recs|
  {
    if e.recno < |recs| && recs[e.recno].body != e.image.body then recs[e.recno := e.image] else recs
  }

  function Next(y: Sys, ev: Event): (z: Sys)
    ensures |z.sess| == |y.sess| && |z.recs| == |y.recs|
  {
    if ev.s >= |y.sess| then y else
    var u := y.sess[ev.s];
    match ev
    case Begin(s) => if u.phase == Idle then y.(sess := y.sess[s := Sess(Active, [], 0)]) else y
    case Update(s, r, body) =>
      if !(u.phase == Idle || u.phase == Active) || !MayUpdate(y.recs, r) then y
      else
        var now := y.(recs := UpdateOne(y.recs, r, body, u.phase == Active));
        if u.phase == Idle then now
        else now.(sess := y.sess[s := Sess(Active, u.log + [Entry(r, y.recs[r])], |u.log| + 1)])
    case Commit(s) => if u.phase == Active then y.(sess := y.sess[s := u.(phase := Committing)]) else y
    case Rollback(s) => if u.phase == Active then y.(sess := y.sess[s := u.(phase := Undoing)]) else y
    case CommitNext(s) =>
      if u.phase != Committing then y
      else if u.left == 0 || u.left > |u.log| then y.(sess := y.sess[s := Sess(Idle, [], 0)])
      else y.(recs := CommitOne(y.recs, u.log[u.left - 1]), sess := y.sess[s := u.(left := u.left - 1)])
    case UndoNext(s) =>
      if u.phase != Undoing then y
      else if u.left == 0 || u.left > |u.log| then y.(sess := y.sess[s := Sess(Idle, [], 0)])
      else
        var e := u.log[u.left - 1];
        Sys(UndoOne(y.recs, e), y.sess[s := u.(left := u.left - 1)],
            if e.recno < |y.recs| && y.recs[e.recno].body == e.image.body then y.stuck + {e.recno} else y.stuck)
  }

  function Run(y: Sys, evs: seq<Event>): (z: Sys)
    ensures |z.sess| == |y.sess| && |z.recs| == |y.recs|
    decreases evs
  {
    if evs == [] then y else Run(Next(y, evs[0]), evs[1..])
  }

  // ------------------------------------------------------------- who owns what

  predicate Entered(y: Sys, s: nat, i: nat) {
    s < |y.sess| && i < y.sess[s].left && i < |y.sess[s].log|
  }

  /** Session `s` owns record `r`: it is among the entries of its log still to be treated. */
  ghost predicate Owns(y: Sys, s: nat, r: nat) {
    exists i: nat {:trigger Entered(y, s, i)} :: Entered(y, s, i) && y.sess[s].log[i].recno == r
  }

  ghost predicate Owned(y: Sys, r: nat) {
    exists s: nat {:trigger Owns(y, s, r)} :: Owns(y, s, r)
  }

  predicate Marked(y: Sys, r: nat) { r < |y.recs| && y.recs[r].mk == TRANS_MKR }

  /** The entries of all logs name different records. */
  ghost predicate Apart(y: Sys) {
    forall s: nat, i: nat, t: nat, j: nat {:trigger Entered(y, s, i), Entered(y, t, j)} ::
      Entered(y, s, i) && Entered(y, t, j) && y.sess[s].log[i].recno == y.sess[t].log[j].recno ==> s == t && i == j
  }

  ghost predicate Sound(y: Sys) {
    && (forall s: nat {:trigger y.sess[s]} :: s < |y.sess| ==>
          y.sess[s].left <= |y.sess[s].log| && (y.sess[s].phase == Idle ==> y.sess[s].log == [])
          && (y.sess[s].phase == Active ==> y.sess[s].left == |y.sess[s].log|))
    && (forall s: nat, i: nat {:trigger Entered(y, s, i)} :: Entered(y, s, i) ==>
          Marked(y, y.sess[s].log[i].recno) && y.sess[s].log[i].image.mk == VAL_MKR
              && y.sess[s].log[i].recno !in y.stuck)
    && Apart(y)
    && (forall r: nat {:trigger Marked(y, r)} :: Marked(y, r) ==> Owned(y, r) || r in y.stuck)
    && (forall r: nat {:trigger r in y.stuck} :: r in y.stuck ==> Marked(y, r))
  }

  // --------------------------------------------------- every step keeps it sound

  /** `y'` has the owners of `y`, and what they own is as it was. */
  ghost predicate SameOwners(y: Sys, y': Sys) {
    && |y'.sess| == |y.sess|
    && forall s: nat, i: nat {:trigger Entered(y', s, i)} {:trigger Entered(y, s, i)} ::
        Entered(y', s, i) == Entered(y, s, i) && (Entered(y, s, i) ==> y'.sess[s].log[i] == y.sess[s].log[i])
  }

  lemma OwnersStay(y: Sys, y': Sys)
    requires SameOwners(y, y')
    ensures forall r :: Owned(y', r) == Owned(y, r)
  {
    forall r ensures Owned(y', r) == Owned(y, r) {
      if Owned(y, r) {
        var s: nat :| Owns(y, s, r);
        var i: nat :| Entered(y, s, i) && y.sess[s].log[i].recno == r;
        assert Entered(y', s, i);
        assert Owns(y', s, r);
      }
      if Owned(y', r) {
        var s: nat :| Owns(y', s, r);
        var i: nat :| Entered(y', s, i) && y'.sess[s].log[i].recno == r;
        assert Entered(y, s, i);
        assert Owns(y, s, r);
      }
    }
  }

  /** Steps that change phases, or a record nobody owns without marking it. */
  lemma QuietKeeps(y: Sys, y': Sys)
    requires Sound(y) && SameOwners(y, y') && y'.stuck == y.stuck && |y'.recs| == |y.recs|
    requires forall r: nat {:trigger Marked(y', r)} {:trigger Marked(y, r)} :: Marked(y', r) == Marked(y, r)
    requires forall s: nat {:trigger y'.sess[s]} :: s < |y'.sess| ==>
      y'.sess[s].left <= |y'.sess[s].log| && (y'.sess[s].phase == Idle ==> y'.sess[s].log == [])
      && (y'.sess[s].phase == Active ==> y'.sess[s].left == |y'.sess[s].log|)
    ensures Sound(y')
  {
    OwnersStay(y, y');
  }

  lemma PhaseKeeps(y: Sys, ev: Event)
    requires Sound(y) && ev.s < |y.sess| && (ev.Begin? || ev.Commit? || ev.Rollback?)
    ensures Sound(Next(y, ev))
  {
    var y' := Next(y, ev);
    assert forall i: nat {:trigger Entered(y', ev.s, i)} {:trigger Entered(y, ev.s, i)} ::
        Entered(y', ev.s, i) == Entered(y, ev.s, i);
    QuietKeeps(y, y');
  }

  lemma PlainUpdateKeeps(y: Sys, s: nat, r: nat, body: string)
    requires Sound(y) && s < |y.sess| && y.sess[s].phase == Idle
    ensures Sound(Next(y, Update(s, r, body)))
  {
    QuietKeeps(y, Next(y, Update(s, r, body)));
  }

  /** Entry `i` of session `s` is new in `y'` and takes the record `r`, nobody's before. */
  lemma TakeKeeps(y: Sys, s: nat, r: nat, body: string)
    requires Sound(y) && s < |y.sess| && y.sess[s].phase == Active && MayUpdate(y.recs, r)
    ensures Sound(Next(y, Update(s, r, body)))
  {
    var y', n := Next(y, Update(s, r, body)), |y.sess[s].log|;
    assert !Marked(y, r);
    forall t: nat, i: nat {:trigger Entered(y', t, i)}
      ensures Entered(y', t, i) == (Entered(y, t, i) || (t == s && i == n))
      ensures Entered(y, t, i) ==> y'.sess[t].log[i] == y.sess[t].log[i] && y.sess[t].log[i].recno != r
    {
      if Entered(y, t, i) { assert Marked(y, y.sess[t].log[i].recno); }
    }
    forall q: nat {:trigger Marked(y', q)} | Marked(y', q) ensures Owned(y', q) || q in y'.stuck {
      if q == r {
        assert Entered(y', s, n);
        assert Owns(y', s, r);
      } else {
        assert Marked(y, q);
        if Owned(y, q) {
          var t: nat :| Owns(y, t, q);
          var i: nat :| Entered(y, t, i) && y.sess[t].log[i].recno == q;
          assert Entered(y', t, i);
          assert Owns(y', t, q);
        }
      }
    }
    assert forall q: nat :: q in y'.stuck ==> Marked(y, q) && Marked(y', q);
  }

  /** The last entry still to be treated leaves the log of `s`, its record no longer marked or stuck. */
  lemma DropKeeps(y: Sys, y': Sys, s: nat)
    requires Sound(y) && s < |y.sess| && 0 < y.sess[s].left
    requires |y'.recs| == |y.recs| && y'.sess == y.sess[s := y.sess[s].(left := y.sess[s].left - 1)]
    requires y.sess[s].phase == Committing || y.sess[s].phase == Undoing
    requires var r := y.sess[s].log[y.sess[s].left - 1].recno;
      && (forall q: nat {:trigger Marked(y', q)} :: q != r ==> Marked(y', q) == Marked(y, q))
      && (if Marked(y', r) then y'.stuck == y.stuck + {r} else y'.stuck == y.stuck)
    ensures Sound(y')
  {
    var n := y.sess[s].left - 1;
    assert Entered(y, s, n);
    var r := y.sess[s].log[n].recno;
    forall t: nat, i: nat {:trigger Entered(y', t, i)}
      ensures Entered(y', t, i) == (Entered(y, t, i) && !(t == s && i == n))
      ensures Entered(y', t, i) ==> y'.sess[t].log[i] == y.sess[t].log[i] && y.sess[t].log[i].recno != r
    {
    }
    forall q: nat {:trigger Marked(y', q)} | Marked(y', q) && q != r ensures Owned(y', q) || q in y'.stuck {
      assert Marked(y, q);
      if Owned(y, q) {
        var t: nat :| Owns(y, t, q);
        var i: nat :| Entered(y, t, i) && y.sess[t].log[i].recno == q;
        assert Entered(y', t, i);
        assert Owns(y', t, q);
      }
    }
    forall q: nat | q in y'.stuck ensures Marked(y', q) {
      if q in y.stuck { assert Marked(y, q); }
    }
  }

  lemma EndKeeps(y: Sys, s: nat)
    requires Sound(y) && s < |y.sess| && y.sess[s].left == 0
    ensures Sound(y.(sess := y.sess[s := Sess(Idle, [], 0)]))
  {
    QuietKeeps(y, y.(sess := y.sess[s := Sess(Idle, [], 0)]));
  }

  /** Any step of any session keeps the marked records apart: each is owned by exactly one
      entry of one log, or was left behind by a rollback. */
  lemma NextKeeps(y: Sys, ev: Event)
    requires Sound(y)
    ensures Sound(Next(y, ev))
  {
    if ev.s < |y.sess| {
      var u := y.sess[ev.s];
      match ev
      case Update(s, r, body) =>
        if u.phase == Idle { PlainUpdateKeeps(y, s, r, body); }
        else if u.phase == Active && MayUpdate(y.recs, r) { TakeKeeps(y, s, r, body); }
      case CommitNext(s) =>
        if u.phase == Committing {
          if u.left == 0 { EndKeeps(y, s); }
          else {
            assert Entered(y, s, u.left - 1);
            DropKeeps(y, Next(y, ev), s);
          }
        }
      case UndoNext(s) =>
        if u.phase == Undoing {
          if u.left == 0 { EndKeeps(y, s); }
          else {
            assert Entered(y, s, u.left - 1);
            DropKeeps(y, Next(y, ev), s);
          }
        }
      case _ => PhaseKeeps(y, ev);
    }
  }

  lemma {:induction false} RunKeeps(y: Sys, evs: seq<Event>)
    requires Sound(y)
    ensures Sound(Run(y, evs))
    decreases evs
  {
    if evs != [] {
      NextKeeps(y, evs[0]);
      RunKeeps(Next(y, evs[0]), evs[1..]);
    }
  }

  /** In every state reached from a table without marked records and sessions without a
      transaction: a record is marked exactly if some log owns it or a rollback left it behind,
      never both, and no two entries own the same record. */
  lemma {:induction false} MarkedExactly(y: Sys, evs: seq<Event>)
    requires y.stuck == {} && (forall r :: !Marked(y, r))
    requires forall s: nat {:trigger y.sess[s]} :: s < |y.sess| ==> y.sess[s] == Sess(Idle, [], 0)
    ensures var z := Run(y, evs);
      && Apart(z)
      && forall r {:trigger Marked(z, r)} :: (Marked(z, r) <==> Owned(z, r) || r in z.stuck)
          && !(Owned(z, r) && r in z.stuck)
  {
    assert Sound(y);
    RunKeeps(y, evs);
    var z := Run(y, evs);
    forall r | Owned(z, r) ensures Marked(z, r) && r !in z.stuck {
      var s: nat :| Owns(z, s, r);
      var i: nat :| Entered(z, s, i) && z.sess[s].log[i].recno == r;
    }
  }

  // ------------------------------------------------- what a transaction can rely on

  /** Entry `i` of session `s` holds its record, which reads `b`. */
  predicate Held(y: Sys, s: nat, i: nat, e: Entry, b: string) {
    Entered(y, s, i) && y.sess[s].log[i] == e && e.recno < |y.recs| && y.recs[e.recno] == Rec(TRANS_MKR, b)
  }

  /** The entry is not treated during the run. */
  predicate Stays(y: Sys, evs: seq<Event>, s: nat, i: nat)
    decreases evs
  {
    Entered(y, s, i) && (evs == [] || Stays(Next(y, evs[0]), evs[1..], s, i))
  }

  lemma HeldNext(y: Sys, ev: Event, s: nat, i: nat, e: Entry, b: string)
    requires Sound(y) && Held(y, s, i, e, b) && Entered(Next(y, ev), s, i)
    ensures Held(Next(y, ev), s, i, e, b)
  {
    if ev.s < |y.sess| && (ev.CommitNext? || ev.UndoNext?) {
      var u := y.sess[ev.s];
      if 0 < u.left <= |u.log| { assert Entered(y, ev.s, u.left - 1); }
    }
  }

  lemma {:induction false} HeldRun(y: Sys, evs: seq<Event>, s: nat, i: nat, e: Entry, b: string)
    requires Sound(y) && Held(y, s, i, e, b) && Stays(y, evs, s, i)
    ensures Held(Run(y, evs), s, i, e, b)
    decreases evs
  {
    if evs != [] {
      NextKeeps(y, evs[0]);
      HeldNext(y, evs[0], s, i, e, b);
      HeldRun(Next(y, evs[0]), evs[1..], s, i, e, b);
    }
  }

  /** A session updates a record; whatever all sessions do before it comes to undo that update,
      undoing gives the record back the body it had, and the whole record exactly if the
      update had changed the body. Nothing else is touched. */
  lemma {:induction false} UndoRestores(y: Sys, s: nat, r: nat, b: string, evs: seq<Event>)
    requires Sound(y) && s < |y.sess| && y.sess[s].phase == Active && MayUpdate(y.recs, r)
    requires Stays(Next(y, Update(s, r, b)), evs, s, |y.sess[s].log|)
    requires var z := Run(Next(y, Update(s, r, b)), evs);
      z.sess[s].phase == Undoing && z.sess[s].left == |y.sess[s].log| + 1
    ensures var z := Run(Next(y, Update(s, r, b)), evs);
      var z' := Next(z, UndoNext(s));
      && r < |z'.recs| == |z.recs|
      && z'.recs[r].body == y.recs[r].body
      && (z'.recs[r] == y.recs[r] <==> b != y.recs[r].body)
      && (b == y.recs[r].body ==> Marked(z', r) && r in z'.stuck)
      && forall q :: 0 <= q < |z.recs| && q != r ==> z'.recs[q] == z.recs[q]
  {
    var y1, n := Next(y, Update(s, r, b)), |y.sess[s].log|;
    NextKeeps(y, Update(s, r, b));
    HeldRun(y1, evs, s, n, Entry(r, y.recs[r]), b);
  }

  /** And committing it changes the marker of that record and nothing else. */
  lemma {:induction false} CommitKeeps(y: Sys, s: nat, r: nat, b: string, evs: seq<Event>)
    requires Sound(y) && s < |y.sess| && y.sess[s].phase == Active && MayUpdate(y.recs, r)
    requires Stays(Next(y, Update(s, r, b)), evs, s, |y.sess[s].log|)
    requires var z := Run(Next(y, Update(s, r, b)), evs);
      z.sess[s].phase == Committing && z.sess[s].left == |y.sess[s].log| + 1
    ensures var z := Run(Next(y, Update(s, r, b)), evs);
      r < |z.recs| && z.recs[r] == Rec(TRANS_MKR, b) && Next(z, CommitNext(s)).recs == z.recs[r := Rec(VAL_MKR, b)]
  {
    var y1, n := Next(y, Update(s, r, b)), |y.sess[s].log|;
    NextKeeps(y, Update(s, r, b));
    HeldRun(y1, evs, s, n, Entry(r, y.recs[r]), b);
  }

  /** The event writes the body of record r. */
  predicate Writes(y: Sys, ev: Event, r: nat) {
    ev.s < |y.sess|
    && var u := y.sess[ev.s];
       (ev.Update? && ev.r == r && (u.phase == Idle || u.phase == Active) && MayUpdate(y.recs, r))
       || (ev.UndoNext? && u.phase == Undoing && 0 < u.left <= |u.log| && u.log[u.left - 1].recno == r)
  }

  predicate NeverWritten(y: Sys, evs: seq<Event>, r: nat)
    decreases evs
  {
    evs == [] || (!Writes(y, evs[0], r) && NeverWritten(Next(y, evs[0]), evs[1..], r))
  }

  /** A record reads what was last written to it, and nothing else writes. */
  lemma {:induction false} ReadsLast(y: Sys, evs: seq<Event>, r: nat)
    requires NeverWritten(y, evs, r) && r < |y.recs|
    ensures r < |Run(y, evs).recs| && Run(y, evs).recs[r].body == y.recs[r].body
    decreases evs
  {
    if evs != [] { ReadsLast(Next(y, evs[0]), evs[1..], r); }
  }

  /**
   * A session updates a record: if it may, the record has the new body, marked if it is in a
   * transaction, until another event writes it; no other record changes. If it may not, nothing does.
   */
  lemma UpdateReads(y: Sys, s: nat, r: nat, b: string, evs: seq<Event>)
    requires s < |y.sess| && (y.sess[s].phase == Idle || y.sess[s].phase == Active) && r < |y.recs|
    ensures var y' := Next(y, Update(s, r, b));
      if y.recs[r].mk == ' ' then
        && y'.recs == y.recs[r := Rec(if y.sess[s].phase == Active then '!' else ' ', b)]
        && (NeverWritten(y', evs, r) ==> r < |Run(y', evs).recs| && Run(y', evs).recs[r].body == b)
      else y' == y
  {
    var y' := Next(y, Update(s, r, b));
    if NeverWritten(y', evs, r) { ReadsLast(y', evs, r); }
  }

  /** No session can ever change a record that a rollback left marked. */
  lemma {:induction false} StuckForever(y: Sys, evs: seq<Event>, r: nat)
    requires Sound(y) && r in y.stuck
    ensures r < |y.recs| == |Run(y, evs).recs| && Run(y, evs).recs[r] == y.recs[r] && r in Run(y, evs).stuck
    decreases evs
  {
    assert Marked(y, r);
    if evs != [] {
      var ev := evs[0];
      if ev.s < |y.sess| && (ev.CommitNext? || ev.UndoNext?) {
        var u := y.sess[ev.s];
        if 0 < u.left <= |u.log| { assert Entered(y, ev.s, u.left - 1); }
      }
      NextKeeps(y, ev);
      StuckForever(Next(y, ev), evs[1..], r);
    }
  }

  /** Every record that may still be rolled back differs from its logged image. */
  ghost predicate Differ(y: Sys) {
    forall s: nat, i: nat {:trigger Entered(y, s, i)} :: Entered(y, s, i) && y.sess[s].phase != Committing ==>
      y.sess[s].log[i].recno < |y.recs| && y.recs[y.sess[s].log[i].recno].body != y.sess[s].log[i].image.body
  }

  /** The event is an update in a transaction, which goes through and stores the body there was. */
  predicate Idles(y: Sys, ev: Event) {
    ev.Update? && ev.s < |y.sess| && y.sess[ev.s].phase == Active && MayUpdate(y.recs, ev.r)
    && y.recs[ev.r].body == ev.body
  }

  /** No event of the run is one. */
  predicate Changing(y: Sys, evs: seq<Event>)
    decreases evs
  {
    evs == [] || (!Idles(y, evs[0]) && Changing(Next(y, evs[0]), evs[1..]))
  }

  lemma DifferNext(y: Sys, ev: Event)
    requires Sound(y) && Differ(y)
    ensures Differ(Next(y, ev)) <==> !Idles(y, ev)
    ensures Next(y, ev).stuck == y.stuck
  {
    var y' := Next(y, ev);
    if Idles(y, ev) {
      assert Entered(y', ev.s, |y.sess[ev.s].log|);
    } else if ev.s < |y.sess| {
      var u := y.sess[ev.s];
      if 0 < u.left <= |u.log| { assert Entered(y, ev.s, u.left - 1); }
      forall s: nat, i: nat {:trigger Entered(y', s, i)} | Entered(y', s, i) && y'.sess[s].phase != Committing
        ensures y'.sess[s].log[i].recno < |y'.recs|
          && y'.recs[y'.sess[s].log[i].recno].body != y'.sess[s].log[i].image.body
      {
        if Entered(y, s, i) { assert Marked(y, y.sess[s].log[i].recno); }
      }
    }
  }

  /**
   * Rollbacks can leave another record stuck exactly if one was stored as it was and may still be
   * rolled back; DifferNext says which updates bring that about.
   */
  lemma StuckExactly(y: Sys)
    requires Sound(y)
    ensures Differ(y) <==> forall evs: seq<Event> | Changing(y, evs) :: Run(y, evs).stuck == y.stuck
  {
    if Differ(y) {
      forall evs: seq<Event> | Changing(y, evs) ensures Run(y, evs).stuck == y.stuck { NoneStuck(y, evs); }
    } else {
      var s: nat, i: nat :| Entered(y, s, i) && y.sess[s].phase != Committing
        && (y.sess[s].log[i].recno < |y.recs| ==>
              y.recs[y.sess[s].log[i].recno].body == y.sess[s].log[i].image.body);
      assert Marked(y, y.sess[s].log[i].recno);
      var evs := RolledBack(y, s, i);
      assert Run(y, evs).stuck != y.stuck;
    }
  }

  lemma {:induction false} NoneStuck(y: Sys, evs: seq<Event>)
    requires Sound(y) && Differ(y) && Changing(y, evs)
    ensures Run(y, evs).stuck == y.stuck
    decreases evs
  {
    if evs != [] {
      DifferNext(y, evs[0]);
      NextKeeps(y, evs[0]);
      NoneStuck(Next(y, evs[0]), evs[1..]);
    }
  }

  /** The entry of a record that is as it was. */
  predicate AsLogged(y: Sys, s: nat, i: nat) {
    Entered(y, s, i) && var e := y.sess[s].log[i]; e.recno < |y.recs| && y.recs[e.recno].body == e.image.body
  }

  /** Rolling the session back, down to this entry. */
  lemma RolledBack(y: Sys, s: nat, i: nat) returns (evs: seq<Event>)
    requires Sound(y) && AsLogged(y, s, i) && y.sess[s].phase != Committing
    ensures Changing(y, evs) && y.sess[s].log[i].recno in Run(y, evs).stuck && y.sess[s].log[i].recno !in y.stuck
  {
    if y.sess[s].phase == Active {
      var ev := Rollback(s);
      var y' := Next(y, ev);
      NextKeeps(y, ev);
      assert Entered(y', s, i);
      var rest := UndoneTo(y', s, i);
      evs := [ev] + rest;
      assert evs[1..] == rest;
    } else {
      evs := UndoneTo(y, s, i);
    }
  }

  lemma {:induction false} UndoneTo(y: Sys, s: nat, i: nat) returns (evs: seq<Event>)
    requires Sound(y) && AsLogged(y, s, i) && y.sess[s].phase == Undoing
    ensures Changing(y, evs) && y.sess[s].log[i].recno in Run(y, evs).stuck
    decreases y.sess[s].left - i
  {
    var ev, u := UndoNext(s), y.sess[s];
    var y' := Next(y, ev);
    var rest := [];
    if i < u.left - 1 {
      NextKeeps(y, ev);
      assert Entered(y, s, u.left - 1) && Entered(y', s, i);
      rest := UndoneTo(y', s, i);
    }
    evs := [ev] + rest;
    assert evs[1..] == rest;
  }

  // ----------------------------------------------------- the code of one session

  /** The entries of the log name different records. */
  ghost predicate Different(log: seq<Entry>) {
    forall i, j {:trigger log[i], log[j]} :: 0 <= i < j < |log| ==> log[i].recno != log[j].recno
  }

  /** Committed, every record of the log is valid, with the body it has; the others are as they were. */
  lemma {:induction false} CommitAllIs(recs: seq<Rec>, log: seq<Entry>, n: nat, r: nat)
    requires n <= |log| && r < |recs|
    ensures CommitAll(recs, log, n)[r] ==
      if exists i :: 0 <= i < n && log[i].recno == r then Rec(' ', recs[r].body) else recs[r]
    decreases n
  {
    if n > 0 { CommitAllIs(CommitOne(recs, log[n - 1]), log, n - 1, r); }
  }

  /** Rolled back, every record of the log has its image if its body differs from it; the others are as
      they were. */
  lemma {:induction false} UndoAllIs(recs: seq<Rec>, log: seq<Entry>, n: nat, r: nat)
    requires n <= |log| && r < |recs| && Different(log)
    ensures var now := UndoAll(recs, log, n);
      && ((forall i :: 0 <= i < n ==> log[i].recno != r) ==> now[r] == recs[r])
      && (forall i :: 0 <= i < n && log[i].recno == r ==>
            now[r] == if recs[r].body != log[i].image.body then log[i].image else recs[r])
    decreases n
  {
    if n > 0 { UndoAllIs(UndoOne(recs, log[n - 1]), log, n - 1, r); }
  }

  /** All entries of a log, last first. */
  function CommitAll(recs: seq<Rec>, log: seq<Entry>, n: nat): (now: seq<Rec>)
    requires n <= |log|
    ensures |now| == |recs|
    decreases n
  {
    if n == 0 then recs else CommitAll(CommitOne(recs, log[n - 1]), log, n - 1)
  }

  function UndoAll(recs: seq<Rec>, log: seq<Entry>, n: nat): (now: seq<Rec>)
    requires n <= |log|
    ensures |now| == |recs|
    decreases n
  {
    if n == 0 then recs else UndoAll(UndoOne(recs, log[n - 1]), log, n - 1)
  }

  /** A session at its table: the shared records, the log file with its position, the buffer. */
  class Session {
    const recs: array<Rec>
    var active: bool
    var log: seq<Entry>
    var pos: nat                 // position in the log file, counted in entries
    var image: Rec               // the rollback buffer
    var recno: nat               // the record it belongs to

    ghost predicate Valid()
      reads this
    {
      pos <= |log|
    }

    constructor (recs: array<Rec>)
      ensures Valid() && this.recs == recs && !active && log == []
    {
      this.recs := recs;
      active, log, pos, image, recno := false, [], 0, Rec(VAL_MKR, ""), 0;
    }

    method Start()
      requires Valid()
      modifies this
      ensures Valid() && active && log == []
    {
      active, log, pos := true, [], 0;
    }

    /** Append the saved record to the log. */
    method RbkWrite()
      modifies this`log, this`pos
      ensures Valid() && log == old(log) + [Entry(recno, image)]
    {
      log := log + [Entry(recno, image)];
      pos := |log|;
    }

    /** Before a record is changed: refuse it if it is in a transaction or not valid, save it,
        and within a transaction log and mark it. */
    method SaveRec(r: nat) returns (e: Option<Error>)
      requires Valid() && r < recs.Length
      modifies this`image, this`recno, this`log, this`pos, recs
      ensures Valid()
      ensures e == if old(recs[r].mk) == TRANS_MKR then Some(TRANSAC_EXCL)
        else if old(recs[r].mk) != VAL_MKR then Some(INVALID_REC) else None
      ensures e != None ==> recs[..] == old(recs[..]) && log == old(log)
      ensures e == None ==>
        && recs[..] == old(recs[..])[r := Rec(if active then TRANS_MKR else VAL_MKR, old(recs[r].body))]
        && log == if active then old(log) + [Entry(r, old(recs[r]))] else old(log)
    {
      if recs[r].mk == TRANS_MKR { return Some(TRANSAC_EXCL); }
      if recs[r].mk != VAL_MKR { return Some(INVALID_REC); }
      image, recno := recs[r], r;
      if active {
        RbkWrite();
        recs[r] := recs[r].(mk := TRANS_MKR);
      }
      e := None;
    }

    /** An update of one record, as one step of the interleaving. */
    method UpdateRec(r: nat, body: string) returns (e: Option<Error>)
      requires Valid() && r < recs.Length
      modifies this`image, this`recno, this`log, this`pos, recs
      ensures Valid() && (e == None <==> old(recs[r].mk) == ' ')
      ensures recs[..] ==
        if e == None then old(recs[..])[r := Rec(if active then '!' else ' ', body)] else old(recs[..])
      ensures log == if e == None && active then old(log) + [Entry(r, old(recs[r]))] else old(log)
      ensures var y, i := Sys(old(recs[..]), [Sess(if active then Active else Idle, old(log), |old(log)|)], {}),
        Update(0, r, body);
        Next(y, i) == Sys(recs[..], [Sess(if active then Active else Idle, log, |log|)], {})
    {
      e := SaveRec(r);
      if e != None { return; }
      recs[r] := recs[r].(body := body);
    }

    /** Read the last entry of the log, and leave the position in front of it. */
    method RbkReadLast() returns (found: bool)
      modifies this`pos, this`image, this`recno
      ensures Valid() && found == (|log| > 0) && pos == if found then |log| - 1 else 0
      ensures found ==> Entry(recno, image) == log[pos]
    {
      pos := |log|;
      if pos == 0 { return false; }
      pos := pos - 1;
      image, recno := log[pos].image, log[pos].recno;
      found := true;
    }

    /** Read the entry in front of the position. */
    method RbkReadPrev() returns (found: bool)
      requires Valid()
      modifies this`pos, this`image, this`recno
      ensures Valid() && found == (old(pos) > 0) && pos == if found then old(pos) - 1 else 0
      ensures found ==> Entry(recno, image) == log[pos]
    {
      if pos == 0 { return false; }
      pos := pos - 1;
      image, recno := log[pos].image, log[pos].recno;
      found := true;
    }

    /** The record just read from the log is marked valid. */
    method CommitCurrent()
      requires recno < recs.Length
      modifies recs
      ensures recs[..] == CommitOne(old(recs[..]), Entry(recno, image))
    {
      recs[recno] := recs[recno].(mk := VAL_MKR);
    }

    /** The record read from the log, if there was one, is that at the position. */
    ghost predicate AtEntry(found: bool)
      reads this
    {
      Valid() && (found ==> pos < |log| && Entry(recno, image) == log[pos])
    }

    method CommitNext(ghost whole: seq<Rec>) returns (found: bool)
      requires AtEntry(true) && recno < recs.Length && whole == CommitAll(recs[..], log, pos + 1)
      modifies this`pos, this`image, this`recno, recs
      ensures AtEntry(found) && (found ==> pos + 1 == old(pos))
      ensures whole == CommitAll(recs[..], log, if found then pos + 1 else 0)
    {
      CommitCurrent();
      found := RbkReadPrev();
    }

    /** Commit: every logged record, last first, is marked valid again. */
    method TransactionCommit()
      requires Valid() && (forall i {:trigger log[i]} :: 0 <= i < |log| ==> log[i].recno < recs.Length)
      modifies this, recs
      ensures Valid() && !active && log == []
      ensures recs[..] == CommitAll(old(recs[..]), old(log), |old(log)|)
    {
      ghost var was, whole := log, CommitAll(recs[..], log, |log|);
      var found := RbkReadLast();
      while found
        invariant log == was && AtEntry(found) && whole == CommitAll(recs[..], log, if found then pos + 1 else 0)
        decreases found, pos
      {
        found := CommitNext(whole);
      }
      active, log, pos := false, [], 0;
    }

    /** The record just read from the log gets its image back if the body differs. */
    method UndoCurrent()
      requires recno < recs.Length
      modifies recs
      ensures recs[..] == UndoOne(old(recs[..]), Entry(recno, image))
    {
      if image.body != recs[recno].body { recs[recno] := image; }
    }

    method UndoNext(ghost whole: seq<Rec>) returns (found: bool)
      requires AtEntry(true) && recno < recs.Length && whole == UndoAll(recs[..], log, pos + 1)
      modifies this`pos, this`image, this`recno, recs
      ensures AtEntry(found) && (found ==> pos + 1 == old(pos))
      ensures whole == UndoAll(recs[..], log, if found then pos + 1 else 0)
    {
      UndoCurrent();
      found := RbkReadPrev();
    }

    /** Rollback: every logged record, last first, gets its image back where the body differs. */
    method RbkRollback()
      requires Valid() && (forall i {:trigger log[i]} :: 0 <= i < |log| ==> log[i].recno < recs.Length)
      modifies this, recs
      ensures Valid() && !active && log == []
      ensures recs[..] == UndoAll(old(recs[..]), old(log), |old(log)|)
    {
      ghost var was, whole := log, UndoAll(recs[..], log, |log|);
      var found := RbkReadLast();
      while found
        invariant log == was && AtEntry(found) && whole == UndoAll(recs[..], log, if found then pos + 1 else 0)
        decreases found, pos
      {
        found := UndoNext(whole);
      }
      active, log, pos := false, [], 0;
    }
  }

  /** A rollback without interference is that many undo steps. */
  lemma {:induction false} UndoAllSteps(y: Sys, s: nat) returns (evs: seq<Event>)
    requires s < |y.sess| && y.sess[s].phase == Undoing && y.sess[s].left <= |y.sess[s].log|
    ensures var u, z := y.sess[s], Run(y, evs);
      z.recs == UndoAll(y.recs, u.log, u.left) && z.sess == y.sess[s := Sess(Idle, [], 0)]
    decreases y.sess[s].left
  {
    var z := Next(y, UndoNext(s));
    if y.sess[s].left > 0 {
      evs := UndoAllSteps(z, s);
    } else {
      evs := [];
    }
    assert Run(z, evs) == Run(y, [UndoNext(s)] + evs) by { assert ([UndoNext(s)] + evs)[1..] == evs; }
    evs := [UndoNext(s)] + evs;
  }

  lemma {:induction false} CommitAllSteps(y: Sys, s: nat) returns (evs: seq<Event>)
    requires s < |y.sess| && y.sess[s].phase == Committing && y.sess[s].left <= |y.sess[s].log|
    ensures var u, z := y.sess[s], Run(y, evs);
      z.recs == CommitAll(y.recs, u.log, u.left) && z.sess == y.sess[s := Sess(Idle, [], 0)]
    decreases y.sess[s].left
  {
    var z := Next(y, CommitNext(s));
    if y.sess[s].left > 0 {
      evs := CommitAllSteps(z, s);
    } else {
      evs := [];
    }
    assert Run(z, evs) == Run(y, [CommitNext(s)] + evs) by { assert ([CommitNext(s)] + evs)[1..] == evs; }
    evs := [CommitNext(s)] + evs;
  }

  /** What begins and ends a transaction of a session changes no record, and is ignored at any other time. */
  lemma EventsAre(y: Sys, s: nat)
    requires s < |y.sess|
    ensures var u := y.sess[s];
      && Next(y, Begin(s)) == (if u.phase == Idle then y.(sess := y.sess[s := Sess(Active, [], 0)]) else y)
      && Next(y, Commit(s)) ==
           (if u.phase == Active then y.(sess := y.sess[s := Sess(Committing, u.log, u.left)]) else y)
      && Next(y, Rollback(s)) ==
           (if u.phase == Active then y.(sess := y.sess[s := Sess(Undoing, u.log, u.left)]) else y)
  {
  }

  /** From COMMIT, or ROLLBACK, to the end of the transaction, when no other session comes between. */
  lemma {:induction false} CommitsAll(y: Sys, s: nat) returns (evs: seq<Event>)
    requires s < |y.sess| && y.sess[s].phase == Active && y.sess[s].left <= |y.sess[s].log|
    ensures var u, z := y.sess[s], Run(y, evs);
      evs != [] && evs[0] == Commit(s) && z.recs == CommitAll(y.recs, u.log, u.left)
      && z.sess == y.sess[s := Sess(Idle, [], 0)]
  {
    var rest := CommitAllSteps(Next(y, Commit(s)), s);
    evs := [Commit(s)] + rest;
    assert evs[1..] == rest;
  }

  lemma {:induction false} RollsBackAll(y: Sys, s: nat) returns (evs: seq<Event>)
    requires s < |y.sess| && y.sess[s].phase == Active && y.sess[s].left <= |y.sess[s].log|
    ensures var u, z := y.sess[s], Run(y, evs);
      evs != [] && evs[0] == Rollback(s) && z.recs == UndoAll(y.recs, u.log, u.left)
      && z.sess == y.sess[s := Sess(Idle, [], 0)]
  {
    var rest := UndoAllSteps(Next(y, Rollback(s)), s);
    evs := [Rollback(s)] + rest;
    assert evs[1..] == rest;
  }
}
