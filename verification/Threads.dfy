/** Calls of procedures that are not defined yet: their CALL slots form a chain
    through the object file, each slot holding the negated position of the one before. */
module Threads {
  import opened Control
  import opened CodeGen
  import opened Lines
  import opened Holes
  import opened Library

  /** The last call of `n` before item `i`; 0 if there is none. */
  function LastAsk(sym: seq<Instr>, n: string, i: nat): (r: nat)
    requires i <= |sym|
    ensures r == 0 || (r < i && sym[r] == Ask(n))
    ensures forall k {:trigger sym[k]} :: r < k < i ==> sym[k] != Ask(n)
  {
    if i == 0 then 0 else if sym[i - 1] == Ask(n) then i - 1 else LastAsk(sym, n, i - 1)
  }

  /** What the slot of the call at `i` holds. */
  function SlotAt(sym: seq<Instr>, defs: map<string, int>, i: nat): int
    requires i < |sym| && sym[i].Ask?
  {
    if sym[i].name in defs then defs[sym[i].name] else 0 - LastAsk(sym, sym[i].name, i)
  }

  /** The object file as it stands while names are open. */
  function Thread(sym: seq<Instr>, defs: map<string, int>): (file: seq<Instr>)
    ensures |file| == |sym|
    ensures forall i {:trigger file[i]} :: 0 <= i < |sym| ==>
      file[i] == if sym[i].Ask? then Jmp(CALL, SlotAt(sym, defs, i)) else sym[i]
  {
    seq(|sym|, i requires 0 <= i < |sym| => if sym[i].Ask? then Jmp(CALL, SlotAt(sym, defs, i)) else sym[i])
  }

  lemma {:induction false} LastAskPrefix(sym: seq<Instr>, sym': seq<Instr>, n: string, i: nat)
    requires i <= |sym| && i <= |sym'| && forall k {:trigger sym'[k]} :: 0 <= k < i ==>
      (sym'[k] == Ask(n) <==> sym[k] == Ask(n))
    ensures LastAsk(sym', n, i) == LastAsk(sym, n, i)
    decreases i
  {
    if i > 0 { assert sym'[i - 1] == Ask(n) <==> sym[i - 1] == Ask(n); LastAskPrefix(sym, sym', n, i - 1); }
  }

  lemma ThreadPut(sym: seq<Instr>, defs: map<string, int>, items: seq<Instr>)
    requires forall k {:trigger items[k]} :: 0 <= k < |items| ==> !items[k].Ask?
    ensures Thread(sym + items, defs) == Thread(sym, defs) + items
  {
    var all := sym + items;
    forall i | 0 <= i < |all| ensures Thread(all, defs)[i] == (Thread(sym, defs) + items)[i] {
      if i < |sym| {
        assert all[i] == sym[i];
        if sym[i].Ask? { LastAskPrefix(sym, all, sym[i].name, i); }
      } else {
        assert all[i] == items[i - |sym|];
      }
    }
  }

  lemma ThreadPatch(sym: seq<Instr>, defs: map<string, int>, p: int, a: int)
    requires !(0 <= p < |sym| && sym[p].Ask?)
    ensures Thread(Patch(sym, p, a), defs) == Patch(Thread(sym, defs), p, a)
  {
    var t := Patch(sym, p, a);
    forall i | 0 <= i < |sym| ensures Thread(t, defs)[i] == Patch(Thread(sym, defs), p, a)[i] {
      if i != p {
        assert t[i] == sym[i];
        if sym[i].Ask? {
          forall k {:trigger t[k]} | 0 <= k < i ensures t[k] == Ask(sym[i].name) <==> sym[k] == Ask(sym[i].name) {
            if k != p { assert t[k] == sym[k]; }
          }
          LastAskPrefix(sym, t, sym[i].name, i);
        }
      }
    }
  }

  function Threaded(c: Comp, defs: map<string, int>): Comp { c.(out := Thread(c.out, defs)) }
  function ThreadedRes(r: Res, defs: map<string, int>): Res { if r.Ok? then Ok(Threaded(r.c, defs)) else r }

  lemma ThreadTest(sym: seq<Instr>, defs: map<string, int>, b: Blk)
    ensures Thread(Test(sym, b), defs) == Test(Thread(sym, defs), b)
  {
    ThreadPut(sym, defs, [Code(b), Jmp(JMP_FALSE, PLACE_HOLDER)]);
  }

  predicate NoAsk(sym: seq<Instr>, p: int) { !(0 <= p < |sym| && sym[p].Ask?) }

  lemma ThreadLink(sym: seq<Instr>, defs: map<string, int>, f: int, j: int)
    requires NoAsk(sym, f) && NoAsk(sym, j) && f < |sym|
    ensures Thread(Link(sym, f, j), defs) == Link(Thread(sym, defs), f, j)
    ensures Thread(Patch(Patch(sym, j, |sym|), f, |sym|), defs) == Patch(Patch(Thread(sym, defs), j, |sym|), f, |sym|)
  {
    var t := Patch(sym, j, |sym|);
    ThreadPatch(sym, defs, j, |sym|);
    ThreadPut(t, defs, [Jmp(JUMP, PLACE_HOLDER)]);
    if 0 <= f { assert (t + [Jmp(JUMP, PLACE_HOLDER)])[f] == t[f]; }
    ThreadPatch(t + [Jmp(JUMP, PLACE_HOLDER)], defs, f, |sym| + 1);
    ThreadPatch(t, defs, f, |sym|);
  }

  // -------------------------------------------- a line does to the file what it does to the code

  lemma ChainThread(c: Comp, isCase: bool, l: Line, fcn: bool, base: Stack<int>, lo: nat, defs: map<string, int>)
    requires Balanced(c, base, lo) && Small(c) && TopTested(c, isCase)
    requires if isCase then l.CaseLn? || l.OtherwiseLn? || l.EndCase? else l.ElseIf? || l.ElseLn? || l.EndIf?
    ensures Step(Threaded(c, defs), l, fcn) == ThreadedRes(Step(c, l, fcn), defs)
  {
    var first, addrs, j, f, nest := InChain(c, isCase, base, lo);
    var t := Thread(c.out, defs);
    ThreadLink(c.out, defs, f, j);
    if l.ElseIf? || l.CaseLn? {
      LinkStep(isCase, first, l.c, c.out, addrs, j, f, nest, fcn);
      LinkStep(isCase, first, l.c, t, addrs, j, f, nest, fcn);
      ThreadTest(Link(c.out, f, j), defs, l.c);
    } else if l.ElseLn? || l.OtherwiseLn? {
      OtherStep(isCase, first, c.out, addrs, j, f, nest, fcn);
      OtherStep(isCase, first, t, addrs, j, f, nest, fcn);
    } else {
      EndStep(isCase, first, c.out, addrs, j, f, nest, fcn);
      EndStep(isCase, first, t, addrs, j, f, nest, fcn);
    }
  }

  lemma PlainThread(c: Comp, l: Line, fcn: bool, defs: map<string, int>)
    requires l.Plain? || l.DoWhile? || l.IfLn? || l.ReturnLn? || l.ReturnValLn? || l.DoCase?
    ensures Step(Threaded(c, defs), l, fcn) == ThreadedRes(Step(c, l, fcn), defs)
  {
    match l
    case Plain(b) => ThreadPut(c.out, defs, [Code(b)]);
    case DoWhile(b) => ThreadTest(c.out, defs, b);
    case IfLn(b) => ThreadTest(c.out, defs, b);
    case ReturnLn => ThreadPut(c.out, defs, [Jmp(RETURN, 0)]);
    case ReturnValLn(e) => ThreadPut(c.out, defs, [Code(e), Jmp(FCNRTN, 0)]);
    case DoCase =>
  }

  lemma ExitThread(c: Comp, fcn: bool, base: Stack<int>, lo: nat, defs: map<string, int>)
    requires Balanced(c, base, lo)
    ensures Step(Threaded(c, defs), ExitLn, fcn) == ThreadedRes(Step(c, ExitLn, fcn), defs)
  {
    if InLoop(c.nest) {
      var k := ExitSlot(c.nest, c.addrs, |c.out|);
      var w := Waiting(c.nest, c.addrs);
      assert Pending(c.out, HolesOf(c.nest, c.addrs)[k]);
      ThreadPatch(c.out, defs, w, |c.out|);
      ThreadPut(Patch(c.out, w, |c.out|), defs, [Jmp(JUMP, PLACE_HOLDER)]);
    }
  }

  lemma EndDoThread(c: Comp, fcn: bool, base: Stack<int>, lo: nat, defs: map<string, int>)
    requires Balanced(c, base, lo)
    ensures Step(Threaded(c, defs), EndDo, fcn) == ThreadedRes(Step(c, EndDo, fcn), defs)
  {
    if Top(c, WhileL) {
      var f, i := c.addrs.top, Jmp(JUMP, c.addrs.below.top);
      assert HolesOf(c.nest, c.addrs)[0] == f && Pending(c.out, f);
      ThreadPut(c.out, defs, [i]);
      assert (c.out + [i])[f] == c.out[f];
      ThreadPatch(c.out + [i], defs, f, |c.out| + 1);
    }
  }

  lemma TailThread(c: Comp, l: Line, fcn: bool, base: Stack<int>, lo: nat, defs: map<string, int>)
    requires Balanced(c, base, lo) && ((Top(c, ElseL) && l.EndIf?) || (Top(c, OtherL(true)) && l.EndCase?))
    ensures Step(Threaded(c, defs), l, fcn) == ThreadedRes(Step(c, l, fcn), defs)
  {
    var f := c.addrs.top;
    assert HolesOf(c.nest, c.addrs)[0] == f && Pending(c.out, f);
    ThreadPatch(c.out, defs, f, |c.out|);
  }

  lemma BareThread(c: Comp, l: Line, fcn: bool, defs: map<string, int>)
    requires l.CaseLn? || l.OtherwiseLn? || l.EndCase?
    requires !Top(c, OtherL(true)) && !(TopCase(c) && c.nest.top.nf)
    ensures Step(Threaded(c, defs), l, fcn) == ThreadedRes(Step(c, l, fcn), defs)
  {
    if l.CaseLn? { ThreadTest(c.out, defs, l.c); }
  }

  lemma CaseThread(c: Comp, l: Line, fcn: bool, base: Stack<int>, lo: nat, defs: map<string, int>)
    requires Balanced(c, base, lo) && Small(c) && (l.CaseLn? || l.OtherwiseLn? || l.EndCase?)
    ensures Step(Threaded(c, defs), l, fcn) == ThreadedRes(Step(c, l, fcn), defs)
  {
    if TopCase(c) && c.nest.top.nf { ChainThread(c, true, l, fcn, base, lo, defs); }
    else if Top(c, OtherL(true)) { if l.EndCase? { TailThread(c, l, fcn, base, lo, defs); } }
    else { BareThread(c, l, fcn, defs); }
  }

  /** Every line but a call does to the file with its threaded slots what it does to the code with names. */
  lemma StepThread(c: Comp, l: Line, fcn: bool, base: Stack<int>, lo: nat, defs: map<string, int>)
    requires Balanced(c, base, lo) && Small(c) && !l.CallLn?
    ensures Step(Threaded(c, defs), l, fcn) == ThreadedRes(Step(c, l, fcn), defs)
  {
    match l
    case EndDo => EndDoThread(c, fcn, base, lo, defs);
    case ExitLn | LoopLn => ExitThread(c, fcn, base, lo, defs);
    case ElseIf(_) => if TopTested(c, false) { ChainThread(c, false, l, fcn, base, lo, defs); }
    case ElseLn => if TopTested(c, false) { ChainThread(c, false, l, fcn, base, lo, defs); }
    case EndIf =>
      if TopTested(c, false) { ChainThread(c, false, l, fcn, base, lo, defs); }
      else if Top(c, ElseL) { TailThread(c, l, fcn, base, lo, defs); }
    case CaseLn(_) => CaseThread(c, l, fcn, base, lo, defs);
    case OtherwiseLn => CaseThread(c, l, fcn, base, lo, defs);
    case EndCase => CaseThread(c, l, fcn, base, lo, defs);
    case _ => PlainThread(c, l, fcn, defs);
  }

  // ------------------------------------------------- calls and definitions

  /** An entry of the list of procedures: defined if `faddr` is positive, else the negated
      position of the last call. */
  datatype DoEnt = DoEnt(name: string, fcn: bool, faddr: int)

  function FaddrOf(sym: seq<Instr>, defs: map<string, int>, n: string): int {
    if n in defs then defs[n] else 0 - LastAsk(sym, n, |sym|)
  }

  predicate HasName(dos: seq<DoEnt>, n: string) {
    exists k {:trigger dos[k]} :: 0 <= k < |dos| && dos[k].name == n
  }

  ghost predicate NamesDiffer(dos: seq<DoEnt>) {
    forall j, k {:trigger dos[j], dos[k]} :: 0 <= j < k < |dos| ==> dos[j].name != dos[k].name
  }

  ghost predicate AddrsOk(dos: seq<DoEnt>, sym: seq<Instr>, defs: map<string, int>) {
    forall k {:trigger dos[k]} :: 0 <= k < |dos| ==>
      dos[k].faddr == FaddrOf(sym, defs, dos[k].name) != 0 && (dos[k].faddr < 0 ==> !dos[k].fcn)
  }

  ghost predicate Covers(dos: seq<DoEnt>, sym: seq<Instr>, defs: map<string, int>) {
    && (forall n :: n in defs ==> defs[n] > 0 && HasName(dos, n))
    && (forall i {:trigger sym[i]} :: 0 <= i < |sym| && sym[i].Ask? ==> HasName(dos, sym[i].name))
  }

  /** The list has one entry for every name called or defined, with its address or the end of its chain. */
  ghost predicate ListOk(dos: seq<DoEnt>, sym: seq<Instr>, defs: map<string, int>) {
    NamesDiffer(dos) && AddrsOk(dos, sym, defs) && Covers(dos, sym, defs)
  }

  lemma ThreadAsk(sym: seq<Instr>, defs: map<string, int>, n: string)
    ensures Thread(sym + [Ask(n)], defs) == Thread(sym, defs) + [Jmp(CALL, FaddrOf(sym, defs, n))]
  {
    var all := sym + [Ask(n)];
    forall i | 0 <= i < |all|
        && all[i].Ask? ensures SlotAt(all, defs, i) == if i < |sym| then SlotAt(sym, defs, i)
        else FaddrOf(sym, defs, n) {
      LastAskPrefix(sym, all, all[i].name, i);
    }
  }

  /** With every name defined no chain is left: each slot holds an entry address. */
  lemma ThreadAllDefined(sym: seq<Instr>, defs: map<string, int>)
    requires forall i {:trigger sym[i]} :: 0 <= i < |sym| && sym[i].Ask? ==> sym[i].name in defs
    ensures Thread(sym, defs) == Resolve(sym, defs)
  {
  }

  /** The list after a call at item `p`, `k` being the entry of its name or the end of the list. */
  function AfterCall(dos: seq<DoEnt>, n: string, k: nat, p: int): (now: seq<DoEnt>)
    requires k <= |dos|
    ensures |now| == if k < |dos| then |dos| else |dos| + 1
    ensures forall j {:trigger now[j]} :: 0 <= j < |dos| && j != k ==> now[j] == dos[j]
  {
    if k == |dos| then dos + [DoEnt(n, false, -p)]
    else if dos[k].faddr < 0 then dos[k := dos[k].(faddr := -p)]
    else dos
  }

  lemma ListAfterCall(dos: seq<DoEnt>, sym: seq<Instr>, defs: map<string, int>, n: string, k: nat)
    requires ListOk(dos, sym, defs) && |sym| > 0 && k <= |dos|
    requires k < |dos| ==> dos[k].name == n
    requires forall j {:trigger dos[j]} :: 0 <= j < k ==> dos[j].name != n
    ensures FaddrOf(sym, defs, n) == if k < |dos| then dos[k].faddr else 0
    ensures ListOk(AfterCall(dos, n, k, |sym|), sym + [Ask(n)], defs)
  {
    var all, now := sym + [Ask(n)], AfterCall(dos, n, k, |sym|);
    if k == |dos| { NotListed(dos, sym, defs, n); }
    assert all[|sym|] == Ask(n);
    assert now[k].name == n && now[k].faddr == FaddrOf(all, defs, n) != 0 && (now[k].faddr < 0 ==> !now[k].fcn);
    forall m | HasName(dos, m) ensures HasName(now, m) {
      var j :| 0 <= j < |dos| && dos[j].name == m;
      assert now[j].name == m;
    }
    forall j {:trigger now[j]} | 0 <= j < |now| && j != k
      ensures now[j].faddr == FaddrOf(all, defs, now[j].name) != 0 && (now[j].faddr < 0 ==> !now[j].fcn)
    {
      assert now[j] == dos[j] && now[j].name != n;
      LastAskPrefix(sym, all, now[j].name, |sym|);
    }
    forall i {:trigger all[i]} | 0 <= i < |all| && all[i].Ask? ensures HasName(now, all[i].name) {
      if i < |sym| { assert all[i] == sym[i]; } else { assert now[k].name == n; }
    }
  }

  /** A name without an entry is neither called nor defined. */
  lemma NotListed(dos: seq<DoEnt>, sym: seq<Instr>, defs: map<string, int>, n: string)
    requires ListOk(dos, sym, defs) && !HasName(dos, n)
    ensures n !in defs && LastAsk(sym, n, |sym|) == 0
    ensures forall i {:trigger sym[i]} :: 0 <= i < |sym| ==> sym[i] != Ask(n)
  {
  }

  /** The list after a definition of `n` at the end of the code, `d` being its entry. */
  lemma ListAfterDef(dos: seq<DoEnt>, now: seq<DoEnt>, sym: seq<Instr>, defs: map<string, int>, n: string, d: DoEnt,
                     k: nat)
    requires ListOk(dos, sym, defs) && n !in defs && |sym| > 0 && k <= |dos|
    requires k < |dos| ==> dos[k].name == n
    requires forall j {:trigger dos[j]} :: 0 <= j < k ==> dos[j].name != n
    requires d.name == n && d.faddr == |sym| && now == if k == |dos| then dos + [d] else dos[k := d]
    ensures ListOk(now, sym, defs[n := |sym|])
  {
    forall j {:trigger now[j]} | 0 <= j < |now| && j != k ensures now[j] == dos[j] && now[j].name != n {
      if j > k { assert dos[k].name != dos[j].name; }
    }
    assert now[k] == d;
    NamesStay(dos, now, k);
    DifferStay(dos, now, n, k);
    OthersStay(dos, now, sym, defs, n, k);
    CoversStay(dos, now, sym, defs, n);
  }

  lemma DifferStay(dos: seq<DoEnt>, now: seq<DoEnt>, n: string, k: nat)
    requires NamesDiffer(dos) && k < |now| && |dos| <= |now| <= |dos| + 1 && (|now| > |dos| ==> k == |dos|)
    requires forall j {:trigger now[j]} :: 0 <= j < |now| && j != k ==> now[j] == dos[j] && now[j].name != n
    requires now[k].name == n
    ensures NamesDiffer(now)
  {
  }

  lemma CoversStay(dos: seq<DoEnt>, now: seq<DoEnt>, sym: seq<Instr>, defs: map<string, int>, n: string)
    requires Covers(dos, sym, defs) && HasName(now, n) && |sym| > 0 && forall m :: HasName(dos, m) ==> HasName(now, m)
    ensures Covers(now, sym, defs[n := |sym|])
  {
  }

  lemma OthersStay(dos: seq<DoEnt>, now: seq<DoEnt>, sym: seq<Instr>, defs: map<string, int>, n: string, k: nat)
    requires AddrsOk(dos, sym, defs) && k < |now| && |dos| <= |now| <= |dos| + 1 && (|now| > |dos| ==> k == |dos|)
    requires forall j {:trigger now[j]} :: 0 <= j < |now| && j != k ==> now[j] == dos[j] && now[j].name != n
    requires now[k].name == n && now[k].faddr == |sym| > 0
    ensures AddrsOk(now, sym, defs[n := |sym|])
  {
    forall j {:trigger now[j]} | 0 <= j < |now| && j != k
      ensures now[j].faddr == FaddrOf(sym, defs[n := |sym|], now[j].name) != 0 && (now[j].faddr < 0 ==> !now[j].fcn)
    {
      assert now[j] == dos[j];
    }
  }

  lemma NamesStay(dos: seq<DoEnt>, now: seq<DoEnt>, k: nat)
    requires k < |now| && |dos| <= |now|
    requires forall j {:trigger now[j]} :: 0 <= j < |dos| && j != k ==> now[j] == dos[j]
    requires k < |dos| ==> now[k].name == dos[k].name
    ensures HasName(now, now[k].name)
    ensures forall m :: HasName(dos, m) ==> HasName(now, m)
  {
    forall m | HasName(dos, m) ensures HasName(now, m) {
      var j :| 0 <= j < |dos| && dos[j].name == m;
      assert now[j].name == m;
    }
  }

  /** What a definition changes in the file: the slots of that name, and no other item. */
  lemma DefSlots(sym: seq<Instr>, defs: map<string, int>, n: string, faddr: int)
    requires n !in defs
    ensures forall i {:trigger Thread(sym, defs[n := faddr])[i]} :: 0 <= i < |sym| ==>
      Thread(sym, defs[n := faddr])[i] == if sym[i] == Ask(n) then Jmp(CALL, faddr) else Thread(sym, defs)[i]
  {
  }

  /** The list is good for any code with the same calls at the same items. */
  lemma ListSame(dos: seq<DoEnt>, sym: seq<Instr>, sym': seq<Instr>, defs: map<string, int>)
    requires ListOk(dos, sym, defs) && |sym| <= |sym'|
    requires forall i {:trigger sym'[i]} :: 0 <= i < |sym| ==> (sym[i].Ask? || sym'[i].Ask? ==> sym'[i] == sym[i])
    requires forall i {:trigger sym'[i]} :: |sym| <= i < |sym'| ==> !sym'[i].Ask?
    ensures ListOk(dos, sym', defs)
  {
    forall k {:trigger dos[k]} | 0 <= k < |dos| ensures FaddrOf(sym', defs, dos[k].name) ==
        FaddrOf(sym, defs, dos[k].name) {
      LastAskPrefix(sym, sym', dos[k].name, |sym|);
      var r := LastAsk(sym', dos[k].name, |sym'|);
      if r < |sym| { assert LastAsk(sym', dos[k].name, |sym|) == r; }
    }
  }

  lemma ListAfterCode(dos: seq<DoEnt>, sym: seq<Instr>, defs: map<string, int>, i: Instr)
    requires ListOk(dos, sym, defs) && !i.Ask?
    ensures ListOk(dos, sym + [i], defs)
  {
    ListSame(dos, sym, sym + [i], defs);
  }

  /** A line that is no call leaves all calls where they are. */
  lemma ListAfterLine(dos: seq<DoEnt>, c: Comp, l: Line, fcn: bool, defs: map<string, int>)
    requires ListOk(dos, c.out, defs) && !l.CallLn? && Step(c, l, fcn).Ok? && |c.out| > 0 && !c.out[0].Ask?
    ensures ListOk(dos, Step(c, l, fcn).c.out, defs) && |Step(c, l, fcn).c.out| > 0 && !Step(c, l, fcn).c.out[0].Ask?
  {
    var out' := Step(c, l, fcn).c.out;
    AsksStay(c, l, fcn);
    ListSame(dos, c.out, out', defs);
  }

  ghost predicate SameAsks(out: seq<Instr>, out': seq<Instr>) {
    && |out| <= |out'|
    && (forall i {:trigger out'[i]} :: 0 <= i < |out| ==> (out[i].Ask? || out'[i].Ask? ==> out'[i] == out[i]))
    && (forall i {:trigger out'[i]} :: |out| <= i < |out'| ==> !out'[i].Ask?)
  }

  lemma SameTrans(a: seq<Instr>, b: seq<Instr>, c: seq<Instr>)
    requires SameAsks(a, b) && SameAsks(b, c)
    ensures SameAsks(a, c)
  {
    forall i {:trigger c[i]} | 0 <= i < |a| && (a[i].Ask? || c[i].Ask?) ensures c[i] == a[i] { assert b[i] == a[i]; }
    forall i {:trigger c[i]} | |a| <= i < |c| ensures !c[i].Ask? { if i < |b| { assert !b[i].Ask?; } }
  }

  lemma ModAddrAsks(c: Comp)
    ensures var r := ModAddr(c); r.Ok? ==> SameAsks(c.out, r.c.out)
  {
  }

  lemma ModJmpAsks(c: Comp)
    ensures var r := ModJmp(c); r.Ok? ==> SameAsks(c.out, r.c.out)
  {
  }

  lemma JmpAsks(c: Comp)
    ensures var r := JmpCodegen(c); r.Ok? ==> SameAsks(c.out, r.c.out)
  {
    var c1 := Put(c, Jmp(JUMP, PLACE_HOLDER));
    ModAddrAsks(c1);
    if ModAddr(c1).Ok? { SameTrans(c.out, c1.out, ModAddr(c1).c.out); }
  }

  lemma CondAsks(c: Comp, b: Blk)
    ensures SameAsks(c.out, Test(c.out, b))
  {
  }

  /** mod_jmp where the flag says so. */
  function Leave(c: Comp, j: bool): Res { if j then ModJmp(c) else Ok(c) }

  lemma LeaveMod(c: Comp, j: bool)
    requires Leave(c, j).Ok? && ModAddr(Leave(c, j).c).Ok?
    ensures SameAsks(c.out, ModAddr(Leave(c, j).c).c.out)
  {
    var c1 := Leave(c, j).c;
    ModJmpAsks(c);
    ModAddrAsks(c1);
    SameTrans(c.out, c1.out, ModAddr(c1).c.out);
  }

  lemma LeaveJmp(c: Comp, j: bool)
    requires Leave(c, j).Ok? && JmpCodegen(Leave(c, j).c).Ok?
    ensures SameAsks(c.out, JmpCodegen(Leave(c, j).c).c.out)
  {
    var c1 := Leave(c, j).c;
    ModJmpAsks(c);
    JmpAsks(c1);
    SameTrans(c.out, c1.out, JmpCodegen(c1).c.out);
  }

  lemma LeaveTest(c: Comp, j: bool, b: Blk)
    requires Leave(c, j).Ok? && JmpCodegen(Leave(c, j).c).Ok?
    ensures SameAsks(c.out, Test(JmpCodegen(Leave(c, j).c).c.out, b))
  {
    var out := JmpCodegen(Leave(c, j).c).c.out;
    LeaveJmp(c, j);
    CondAsks(JmpCodegen(Leave(c, j).c).c, b);
    SameTrans(c.out, out, Test(out, b));
  }

  lemma AsksStay(c: Comp, l: Line, fcn: bool)
    requires !l.CallLn? && Step(c, l, fcn).Ok?
    ensures SameAsks(c.out, Step(c, l, fcn).c.out)
  {
    match l
    case ElseIf(b) => LeaveTest(c, Top(c, ElseIfL), b);
    case ElseLn => LeaveJmp(c, Top(c, ElseIfL));
    case EndIf => LeaveMod(c, Top(c, ElseIfL));
    case CaseLn(_) => CaseAsks(c, l, fcn);
    case OtherwiseLn => CaseAsks(c, l, fcn);
    case EndCase => CaseAsks(c, l, fcn);
    case _ => FewAsks(c, l, fcn);
  }

  lemma CaseAsks(c: Comp, l: Line, fcn: bool)
    requires (l.CaseLn? || l.OtherwiseLn? || l.EndCase?) && Step(c, l, fcn).Ok?
    ensures SameAsks(c.out, Step(c, l, fcn).c.out)
  {
    if TopCase(c) && c.nest.top.nf {
      if l.CaseLn? { LeaveTest(c, c.nest.top.s, l.c); }
      else if l.OtherwiseLn? { LeaveJmp(c, c.nest.top.s); }
      else { LeaveMod(c, c.nest.top.s); }
    } else if l.CaseLn? {
      CondAsks(c, l.c);
    } else if l.EndCase? && Top(c, OtherL(true)) {
      ModAddrAsks(c);
    }
  }

  lemma FewAsks(c: Comp, l: Line, fcn: bool)
    requires l.Plain? || l.DoWhile? || l.EndDo? || l.ExitLn? || l.LoopLn? || l.IfLn? || l.DoCase? || l.ReturnLn?
      || l.ReturnValLn?
    requires Step(c, l, fcn).Ok?
    ensures SameAsks(c.out, Step(c, l, fcn).c.out)
  {
  }

  lemma BalancedStart(c: Comp)
    requires c.nest == Empty
    ensures Balanced(c, c.addrs, |c.out|)
  {
  }

  // ------------------------------------------------------- the finished table

  /** How many of the first `k` entries are not defined. */
  function Open(dos: seq<DoEnt>, k: nat): (r: nat)
    requires k <= |dos|
  {
    if k == 0 then 0 else Open(dos, k - 1) + if dos[k - 1].faddr < 0 then 1 else 0
  }

  /** A name whose entry comes at `k` or later. */
  predicate LaterName(dos: seq<DoEnt>, k: nat, n: string) {
    exists j {:trigger dos[j]} :: k <= j < |dos| && dos[j].name == n
  }

  lemma {:induction false} OpenNone(dos: seq<DoEnt>, k: nat)
    requires k <= |dos|
    ensures Open(dos, k) == 0 <==> forall j {:trigger dos[j]} :: 0 <= j < k ==> dos[j].faddr >= 0
    decreases k
  {
    if k > 0 { OpenNone(dos, k - 1); }
  }

  /** No entry is open exactly if every name called is defined. */
  lemma NoneOpen(dos: seq<DoEnt>, sym: seq<Instr>, defs: map<string, int>)
    requires ListOk(dos, sym, defs)
    ensures Open(dos, |dos|) == 0 <==> forall n :: Called(sym, n) ==> n in defs
  {
    OpenNone(dos, |dos|);
    if Open(dos, |dos|) == 0 {
      forall n | Called(sym, n) ensures n in defs {
        var i :| 0 <= i < |sym| && sym[i] == Ask(n);
        assert HasName(dos, sym[i].name);
        var j :| 0 <= j < |dos| && dos[j].name == n;
      }
    } else {
      var j :| 0 <= j < |dos| && dos[j].faddr < 0;
      assert Called(sym, dos[j].name);
    }
  }

  lemma FileResolved(sym: seq<Instr>, defs: map<string, int>)
    requires |sym| > 0 && sym[0].Jmp? && sym[0].jc == OBJ_LIB && forall n :: Called(sym, n) ==> n in defs
    ensures Patch(Thread(sym, defs), 0, |sym|) == Resolve(Sealed(sym), defs)
  {
    forall i {:trigger sym[i]} | 0 <= i < |sym| && sym[i].Ask? ensures sym[i].name in defs {
      assert Called(sym, sym[i].name);
    }
    ThreadAllDefined(sym, defs);
  }

  /** While the table is written: only calls of undefined names whose entries come before `k` were touched. */
  ghost predicate Counted(f: seq<Instr>, t: seq<Instr>, dos: seq<DoEnt>, k: nat, sym: seq<Instr>, defs: map<string,
                          int>) {
    && |f| == |t| == |sym|
    && forall i {:trigger f[i]} ::
         0 <= i < |sym| && !(sym[i].Ask? && sym[i].name !in defs && !LaterName(dos, k, sym[i].name)) ==> f[i] == t[i]
  }

  /** The chain of the next entry is whole. */
  lemma NextChain(f: seq<Instr>, t: seq<Instr>, dos: seq<DoEnt>, k: nat, sym: seq<Instr>, defs: map<string, int>)
    requires Counted(f, t, dos, k, sym, defs) && k < |dos| && t == Thread(sym, defs) && ListOk(dos, sym, defs)
      && dos[k].faddr < 0
    ensures dos[k].faddr == 0 - LastAsk(sym, dos[k].name, |sym|)
    ensures forall i {:trigger f[i]} :: 0 <= i < |sym| && sym[i] == Ask(dos[k].name) ==>
      f[i] == Jmp(CALL, 0 - LastAsk(sym, dos[k].name, i))
  {
    assert LaterName(dos, k, dos[k].name);
    assert dos[k].name !in defs;
  }

  lemma CountOne(f: seq<Instr>, t: seq<Instr>, dos: seq<DoEnt>, k: nat, sym: seq<Instr>, defs: map<string, int>,
                 p: nat, a: int)
    requires Counted(f, t, dos, k, sym, defs) && k < |dos| && ListOk(dos, sym, defs) && dos[k].faddr < 0
    requires p < |sym| && sym[p] == Ask(dos[k].name)
    ensures Counted(Patch(f, p, a), t, dos, k + 1, sym, defs)
  {
    var u := Patch(f, p, a);
    assert dos[k].name !in defs;
    assert !LaterName(dos, k + 1, dos[k].name);
    forall i {:trigger u[i]} | 0 <= i < |sym|
        && !(sym[i].Ask? && sym[i].name !in defs && !LaterName(dos, k + 1, sym[i].name))
      ensures u[i] == t[i]
    {
      if sym[i].Ask? && LaterName(dos, k + 1, sym[i].name) { assert LaterName(dos, k, sym[i].name); }
      assert i != p && u[i] == f[i];
    }
  }

  lemma SkipOne(f: seq<Instr>, t: seq<Instr>, dos: seq<DoEnt>, k: nat, sym: seq<Instr>, defs: map<string, int>)
    requires Counted(f, t, dos, k, sym, defs) && k < |dos| && ListOk(dos, sym, defs) && dos[k].faddr >= 0
    ensures Counted(f, t, dos, k + 1, sym, defs)
  {
    forall i {:trigger f[i]} | 0 <= i < |sym|
        && !(sym[i].Ask? && sym[i].name !in defs && !LaterName(dos, k + 1, sym[i].name))
      ensures f[i] == t[i]
    {
      if sym[i].Ask? && LaterName(dos, k + 1, sym[i].name) { assert LaterName(dos, k, sym[i].name); }
    }
  }

  // ---------------------------------------------------- walking one chain

  /** On the way back through the chain of `n`: the calls behind `-a` hold the entry address. */
  ghost predicate Walked(f: seq<Instr>, t: seq<Instr>, sym: seq<Instr>, n: string, a: int, faddr: int) {
    && |f| == |t| == |sym| && a <= 0 && -a < |sym| && !sym[0].Ask? && (a != 0 ==> sym[-a] == Ask(n))
    && (forall i {:trigger t[i]} :: 0 <= i < |sym| && sym[i] == Ask(n) ==> t[i] == Jmp(CALL, 0 - LastAsk(sym, n, i)))
    && (forall i {:trigger f[i]} :: 0 <= i < |sym| ==>
        f[i] == if i > -a && sym[i] == Ask(n) then Jmp(CALL, faddr) else t[i])
  }

  lemma WalkOne(f: seq<Instr>, t: seq<Instr>, sym: seq<Instr>, n: string, a: int, faddr: int)
    requires Walked(f, t, sym, n, a, faddr) && a != 0
    ensures Hole(f, -a) && a < f[-a].addr <= 0
    ensures Walked(Patch(f, -a, faddr), t, sym, n, f[-a].addr, faddr)
  {
    assert f[-a] == t[-a];
    var u, b := Patch(f, -a, faddr), 0 - LastAsk(sym, n, -a);
    forall i {:trigger u[i]} | 0 <= i < |sym| ensures u[i] == if i > -b
        && sym[i] == Ask(n) then Jmp(CALL, faddr) else t[i] {
      if i != -a { assert u[i] == f[i]; }
    }
  }
}
