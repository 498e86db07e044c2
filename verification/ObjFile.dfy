/** The compiler of proc.c with its state: the object file that is patched in
    place, the two stacks, and the list of procedures. */
module ObjFile {
  import opened Options
  import opened Control
  import opened CodeGen
  import opened Lines
  import opened Holes
  import opened Library
  import opened Threads
  import opened Nesting

  /** The entries 1..n of a stack array, whose entry 0 is not used. */
  ghost function FromTop<T>(a: seq<T>, n: nat): (s: Stack<T>)
    requires n < |a| || n == 0
    ensures Len(s) == n
  {
    if n == 0 then Empty else Push(a[n], FromTop(a, n - 1))
  }

  lemma {:induction false} FromTopSame<T>(a: seq<T>, b: seq<T>, n: nat)
    requires n < |a| && n < |b| && forall i {:trigger b[i]} :: 1 <= i <= n ==> a[i] == b[i]
    ensures FromTop(a, n) == FromTop(b, n)
    decreases n
  {
    if n > 0 { assert b[n] == a[n]; FromTopSame(a, b, n - 1); }
  }

  /** The outcome of an operation: what the specification function says it is. */
  ghost predicate Agrees(r: Res, e: Option<Error>, now: Comp) {
    if r.Ok? then e == None && now == r.c else e == Some(r.e)
  }

  /** The index that EXIT finds by counting down both stacks; 0 if no loop is open. */
  ghost function LoopSlot(nest: seq<Level>, lvl: nat, n: int): int
    requires lvl < |nest|
  {
    if lvl == 0 then 0
    else if nest[lvl] == WhileL then n
    else LoopSlot(nest, lvl - 1, n - Height(nest[lvl]))
  }

  lemma {:induction false} LoopSlotIs(nest: seq<Level>, lvl: nat, addrs: seq<int>, n: nat, v: int)
    requires lvl < |nest| && n < |addrs| && Older(FromTop(nest, lvl), FromTop(addrs, n)).Some?
    ensures var k, ns, s := LoopSlot(nest, lvl, n), FromTop(nest, lvl), FromTop(addrs, n);
      if InLoop(ns)
      then 0 < k <= n && Waiting(ns, s) == addrs[k] && SetWaiting(ns, s, v) == FromTop(addrs[k := v], n)
      else k == 0
    decreases lvl
  {
    if lvl > 0 {
      var h := Height(nest[lvl]);
      if nest[lvl] == WhileL {
        FromTopSame(addrs, addrs[n := v], n - 1);
      } else {
        LoopSlotIs(nest, lvl - 1, addrs, n - h, v);
        var k := LoopSlot(nest, lvl - 1, n - h);
        if InLoop(FromTop(nest, lvl - 1)) && h > 0 {
          assert addrs[k := v][n] == addrs[n];
          if h == 2 { assert addrs[k := v][n - 1] == addrs[n - 1]; }
        }
      }
    }
  }

  class ProcFile {
    var file: seq<Instr>
    const jmpAddr: array<int>
    var topAddr: nat
    const neststack: array<Level>
    var top: nat
    var doList: seq<DoEnt>

    ghost var sym: seq<Instr>              // the code with its calls by name
    ghost var defs: map<string, int>       // the entries of the procedures defined

    ghost predicate Valid()
      reads this
    {
      jmpAddr.Length == MAXLEVEL && neststack.Length == MAXLEVEL && topAddr < MAXLEVEL && top < MAXLEVEL
    }

    ghost function View(): Comp
      reads this, jmpAddr, neststack
      requires Valid()
    {
      Comp(file, FromTop(jmpAddr[..], topAddr), FromTop(neststack[..], top))
    }

    constructor ()
      ensures Valid() && fresh(jmpAddr) && fresh(neststack)
      ensures View() == Comp([], Empty, Empty) && doList == [] && sym == [] && defs == map[]
    {
      file := [];
      jmpAddr := new int[MAXLEVEL](_ => 0);
      neststack := new Level[MAXLEVEL](_ => IfL);
      topAddr, top, doList, sym, defs := 0, 0, [], [], map[];
    }

    method CgenLjmp(jc: JmpCode, a: int)
      requires Valid()
      modifies this`file
      ensures Valid() && View() == Put(old(View()), Jmp(jc, a))
    {
      file := file + [Jmp(jc, a)];
    }

    method WriteBlock(b: Blk)
      requires Valid()
      modifies this`file
      ensures Valid() && View() == Put(old(View()), Code(b))
    {
      file := file + [Code(b)];
    }

    method PushAddr(a: int) returns (e: Option<Error>)
      requires Valid()
      modifies this`topAddr, jmpAddr
      ensures Valid() && Agrees(Lines.PushAddr(old(View()), a), e, View())
    {
      if topAddr + 1 >= MAXLEVEL { return Some(STACK_FAULT); }
      topAddr := topAddr + 1;
      jmpAddr[topAddr] := a;
      FromTopSame(old(jmpAddr[..]), jmpAddr[..], topAddr - 1);
      e := None;
    }

    method PopAddr() returns (e: Option<Error>, a: int)
      requires Valid()
      modifies this`topAddr
      ensures Valid()
      ensures var c := old(View());
        if c.addrs.Empty? then e == Some(STACK_FAULT) && View() == c
        else e == None && a == c.addrs.top && View() == c.(addrs := c.addrs.below)
    {
      if topAddr == 0 { return Some(STACK_FAULT), 0; }
      e, a := None, jmpAddr[topAddr];
      topAddr := topAddr - 1;
    }

    method PushLevel(l: Level) returns (e: Option<Error>)
      requires Valid()
      modifies this`top, neststack
      ensures Valid() && Agrees(Lines.PushLevel(old(View()), l), e, View())
    {
      if top + 1 == MAXLEVEL { return Some(TOOMANY_LEVELS); }
      top := top + 1;
      neststack[top] := l;
      FromTopSame(old(neststack[..]), neststack[..], top - 1);
      e := None;
    }

    method ChgLevel(l: Level)
      requires Valid() && top > 0
      modifies neststack
      ensures Valid() && View() == Lines.ChgLevel(old(View()), l)
    {
      neststack[top] := l;
      FromTopSame(old(neststack[..]), neststack[..], top - 1);
    }

    method PopLevel()
      requires Valid() && top > 0
      modifies this`top
      ensures Valid() && View() == Lines.PopLevel(old(View()))
    {
      top := top - 1;
    }

    /** Seek to a long jump and write an address into it. */
    method WriteAddr(p: int, a: int)
      requires Valid()
      modifies this`file
      ensures Valid() && View() == old(View()).(out := Patch(old(file), p, a))
    {
      if 0 <= p < |file| {
        match file[p]
        case Jmp(jc, _) => file := file[p := Jmp(jc, a)];
        case _ =>
      }
    }

    method ModAddr() returns (e: Option<Error>)
      requires Valid()
      modifies this`file, this`topAddr
      ensures Valid() && Agrees(Lines.ModAddr(old(View())), e, View())
    {
      var curr := |file|;
      var p;
      e, p := PopAddr();
      if e == None { WriteAddr(p, curr); }
    }

    method ModJmp() returns (e: Option<Error>)
      requires Valid()
      modifies this`file, this`topAddr, jmpAddr
      ensures Valid() && Agrees(Lines.ModJmp(old(View())), e, View())
    {
      var pos;
      e, pos := PopAddr();
      if e != None { return; }
      e := ModAddr();
      if e != None { return; }
      e := PushAddr(pos);
    }

    method JmpCodegen() returns (e: Option<Error>)
      requires Valid()
      modifies this`file, this`topAddr, jmpAddr
      ensures Valid() && Agrees(Lines.JmpCodegen(old(View())), e, View())
    {
      CgenLjmp(JUMP, PLACE_HOLDER);
      e := ModAddr();
      if e != None { return; }
      e := PushAddr(|file| - 1);
    }

    method CondCodegen(b: Blk) returns (e: Option<Error>)
      requires Valid()
      modifies this`file, this`topAddr, jmpAddr
      ensures Valid() && Agrees(Lines.CondCodegen(old(View()), b), e, View())
    {
      WriteBlock(b);
      CgenLjmp(JMP_FALSE, PLACE_HOLDER);
      assert file == Test(old(file), b);
      e := PushAddr(|file| - 1);
    }

    /** Count down the levels to the innermost WHILE. */
    method FindLoop() returns (found: bool, spAddr: int)
      requires Valid()
      ensures found == InLoop(View().nest) && (found ==> spAddr == LoopSlot(neststack[..], top, topAddr))
    {
      var spLvl := top;
      spAddr, found := topAddr, false;
      ghost var ns := neststack[..];
      while spLvl > 0 && !found
        invariant 0 <= spLvl <= top
        invariant InLoop(FromTop(ns, top)) == (found || InLoop(FromTop(ns, spLvl)))
        invariant (if found then spAddr else LoopSlot(ns, spLvl, spAddr)) == LoopSlot(ns, top, topAddr)
        decreases !found, spLvl
      {
        assert neststack[spLvl] == ns[spLvl];
        match neststack[spLvl]
        case IfL => spLvl, spAddr := spLvl - 1, spAddr - 1;
        case ElseL => spLvl, spAddr := spLvl - 1, spAddr - 1;
        case ElseIfL => spLvl, spAddr := spLvl - 1, spAddr - 2;
        case CaseL(s, nf) =>
          if s { spAddr := spAddr - 1; }
          if nf { spAddr := spAddr - 1; }
          spLvl := spLvl - 1;
        case OtherL(nf) =>
          if nf { spAddr := spAddr - 1; }
          spLvl := spLvl - 1;
        case WhileL => found := true;
      }
    }

    /** EXIT: let the jump that waits for the end of the innermost WHILE come here, and
        leave another one to wait. */
    method ExitJump() returns (e: Option<Error>)
      requires Valid() && Older(View().nest, View().addrs).Some?
      modifies this`file, jmpAddr
      ensures Valid() && Agrees(Step(old(View()), ExitLn, false), e, View())
    {
      LoopSlotIs(neststack[..], top, jmpAddr[..], topAddr, |file|);
      var found, spAddr := FindLoop();
      if !found { return Some(UNBAL_LOOP); }
      var curr := |file|;
      WriteAddr(jmpAddr[spAddr], curr);
      CgenLjmp(JUMP, PLACE_HOLDER);
      jmpAddr[spAddr] := curr;
      assert jmpAddr[..] == old(jmpAddr[..])[spAddr := curr];
      e := None;
    }

    method EndDoLine() returns (e: Option<Error>)
      requires Valid()
      modifies this`file, this`topAddr, this`top, jmpAddr
      ensures Valid() && Agrees(Step(old(View()), EndDo, false), e, View())
    {
      if top == 0 || neststack[top] != WhileL { return Some(UNBAL_ENDDO); }
      PopLevel();
      var pos, start;
      e, pos := PopAddr();
      if e != None { return; }
      e, start := PopAddr();
      if e != None { return; }
      CgenLjmp(JUMP, start);
      e := PushAddr(pos);
      e := ModAddr();
    }

    /** What ELSEIF and ELSE do first: leave the arm before. */
    method LeaveArm() returns (e: Option<Error>)
      requires Valid()
      modifies this`file, this`topAddr, jmpAddr
      ensures Valid()
      ensures var c := old(View());
        if Top(c, IfL) then Agrees(Lines.JmpCodegen(c), e, View())
        else if Top(c, ElseIfL) then
          var r := Lines.ModJmp(c);
          Agrees(if r.Ok? then Lines.JmpCodegen(r.c) else r, e, View())
        else e == Some(MISSING_IF)
    {
      if top == 0 { return Some(MISSING_IF); }
      if neststack[top] == IfL {
        e := JmpCodegen();
      } else if neststack[top] == ElseIfL {
        e := ModJmp();
        if e != None { return; }
        e := JmpCodegen();
      } else {
        e := Some(MISSING_IF);
      }
    }

    method ElseIfLine(b: Blk) returns (e: Option<Error>)
      requires Valid()
      modifies this`file, this`topAddr, jmpAddr, neststack
      ensures Valid() && Agrees(Step(old(View()), ElseIf(b), false), e, View())
    {
      e := LeaveArm();
      if e != None { return; }
      ChgLevel(ElseIfL);
      e := CondCodegen(b);
    }

    method ElseLine() returns (e: Option<Error>)
      requires Valid()
      modifies this`file, this`topAddr, jmpAddr, neststack
      ensures Valid() && Agrees(Step(old(View()), ElseLn, false), e, View())
    {
      e := LeaveArm();
      if e != None { return; }
      ChgLevel(ElseL);
    }

    method EndIfLine() returns (e: Option<Error>)
      requires Valid()
      modifies this`file, this`topAddr, this`top, jmpAddr
      ensures Valid() && Agrees(Step(old(View()), EndIf, false), e, View())
    {
      if top == 0 { return Some(UNBAL_ENDIF); }
      if neststack[top] == IfL || neststack[top] == ElseL {
        e := ModAddr();
      } else if neststack[top] == ElseIfL {
        e := ModJmp();
        if e != None { return; }
        e := ModAddr();
      } else {
        e := Some(UNBAL_ENDIF);
      }
      if e != None { return; }
      PopLevel();
    }

    /** CASE (with a condition) and OTHERWISE (without). */
    method CaseLine(b: Option<Blk>) returns (e: Option<Error>)
      requires Valid()
      modifies this`file, this`topAddr, jmpAddr, neststack
      ensures Valid() && Agrees(Step(old(View()), if b.Some? then CaseLn(b.v) else OtherwiseLn, false), e, View())
    {
      if top == 0 { return Some(MISSING_CASE); }
      match neststack[top] {
        case CaseL(s, nf) =>
          if nf {
            if s {
              e := ModJmp();
              if e != None { return; }
            }
            e := JmpCodegen();
            if e != None { return; }
          }
          ChgLevel(if b.None? then OtherL(nf) else CaseL(s || nf, true));
          if b.Some? { e := CondCodegen(b.v); } else { e := None; }
        case _ => e := Some(MISSING_CASE);
      }
    }

    method EndCaseLine() returns (e: Option<Error>)
      requires Valid()
      modifies this`file, this`topAddr, this`top, jmpAddr
      ensures Valid() && Agrees(Step(old(View()), EndCase, false), e, View())
    {
      if top == 0 { return Some(UNBAL_ENDCASE); }
      var s, nf := false, false;
      match neststack[top] {
        case CaseL(s', nf') => s, nf := s', nf';
        case OtherL(nf') => nf := nf';
        case _ => return Some(UNBAL_ENDCASE);
      }
      e := None;
      if nf {
        if s {
          e := ModJmp();
          if e != None { return; }
        }
        e := ModAddr();
        if e != None { return; }
      }
      PopLevel();
    }

    /** Any line but a call, as it acts on the file. */
    method PlainLine(l: Line, fcn: bool) returns (e: Option<Error>)
      requires Valid() && !l.CallLn? && Older(View().nest, View().addrs).Some?
      modifies this`file, this`topAddr, this`top, jmpAddr, neststack
      ensures Valid() && Agrees(Step(old(View()), l, fcn), e, View())
    {
      e := None;
      match l
      case Plain(b) => WriteBlock(b);
      case DoWhile(b) =>
        e := PushLevel(WhileL);
        if e != None { return; }
        e := PushAddr(|file|);
        if e != None { return; }
        e := CondCodegen(b);
      case EndDo => e := EndDoLine();
      case ExitLn | LoopLn => e := ExitJump();
      case IfLn(b) =>
        e := PushLevel(IfL);
        if e != None { return; }
        e := CondCodegen(b);
      case ElseIf(b) => e := ElseIfLine(b);
      case ElseLn => e := ElseLine();
      case EndIf => e := EndIfLine();
      case DoCase => e := PushLevel(CaseL(false, false));
      case CaseLn(b) => e := CaseLine(Some(b));
      case OtherwiseLn => e := CaseLine(None);
      case EndCase => e := EndCaseLine();
      case ReturnLn =>
        if fcn { return Some(BAD_EXP); }
        CgenLjmp(RETURN, 0);
      case ReturnValLn(x) =>
        if !fcn { return Some(EXCESS_SYNTAX); }
        WriteBlock(x);
        CgenLjmp(FCNRTN, 0);
        assert file == old(file) + [Code(x), Jmp(FCNRTN, 0)];
    }

    /** The file is the code with its call slots threaded, and the list knows every name. */
    ghost predicate Linked()
      reads this
    {
      |sym| > 0 && !sym[0].Ask? && file == Thread(sym, defs) && ListOk(doList, sym, defs)
    }

    /** The entry of a name, or the length of the list. */
    method Find(name: string) returns (k: nat)
      ensures k <= |doList| && (k < |doList| ==> doList[k].name == name)
      ensures forall j {:trigger doList[j]} :: 0 <= j < k ==> doList[j].name != name
    {
      k := 0;
      while k < |doList| && doList[k].name != name
        invariant k <= |doList|
        invariant forall j {:trigger doList[j]} :: 0 <= j < k ==> doList[j].name != name
      {
        k := k + 1;
      }
    }

    /** A reference to `name`: the slot just written joins the chain, or holds the entry address. */
    method AddCall(name: string)
      requires Valid() && |sym| > 0 && !sym[0].Ask? && ListOk(doList, sym, defs)
      requires file == Thread(sym, defs) + [Jmp(CALL, PLACE_HOLDER)]
      modifies this`file, this`doList, this`sym
      ensures Valid() && Linked() && sym == old(sym) + [Ask(name)]
    {
      var slot := |file| - 1;
      var k := Find(name);
      ListAfterCall(doList, sym, defs, name, k);
      ThreadAsk(sym, defs, name);
      WriteAddr(slot, if k == |doList| then 0 else doList[k].faddr);
      assert file == Thread(sym, defs) + [Jmp(CALL, FaddrOf(sym, defs, name))];
      NoteCall(name, k, slot);
      sym := sym + [Ask(name)];
    }

    /** Enter the new end of the chain of `name` into the list. */
    method NoteCall(name: string, k: nat, slot: nat)
      requires k <= |doList|
      modifies this`doList
      ensures doList == AfterCall(old(doList), name, k, slot)
    {
      if k == |doList| {
        doList := doList + [DoEnt(name, false, 0 - slot)];
      } else if doList[k].faddr < 0 {
        doList := doList[k := doList[k].(faddr := 0 - slot)];
      }
    }

    /** A definition of `name` at the end of the file: every slot of its chain receives the entry address. */
    method AddDef(name: string, fcn: bool) returns (e: Option<Error>)
      requires Valid() && Linked()
      modifies this`file, this`doList, this`defs
      ensures Valid()
      ensures if name in old(defs) then e == Some(MULTI_DEF)
              else if fcn && Called(sym, name) then e == Some(PROC_MISMATCH)
              else e == None && Linked() && defs == old(defs)[name := |file|]
      ensures |file| == old(|file|)
    {
      var faddr := |file|;
      var k := Find(name);
      if k == |doList| {
        NotListed(doList, sym, defs, name);
        doList := doList + [DoEnt(name, fcn, faddr)];
        ListAfterDef(old(doList), doList, sym, defs, name, DoEnt(name, fcn, faddr), k);
      } else {
        var d := doList[k];
        if d.faddr > 0 { return Some(MULTI_DEF); }
        assert Called(sym, name);
        if d.fcn != fcn { return Some(PROC_MISMATCH); }
        WalkChain(name, d.faddr, faddr);
        doList := doList[k := d.(faddr := faddr)];
        ListAfterDef(old(doList), doList, sym, defs, name, d.(faddr := faddr), k);
      }
      DefSlots(sym, defs, name, faddr);
      defs := defs[name := faddr];
      e := None;
    }

    /** From the last call of `name` back to its first one, each slot once. */
    method WalkChain(name: string, last: int, faddr: int)
      requires Valid() && |file| == |sym| > 0 && !sym[0].Ask? && last == 0 - LastAsk(sym, name, |sym|)
      requires forall i {:trigger file[i]} :: 0 <= i < |sym| && sym[i] == Ask(name) ==>
        file[i] == Jmp(CALL, 0 - LastAsk(sym, name, i))
      modifies this`file
      ensures Valid() && |file| == |sym|
      ensures forall i {:trigger file[i]} :: 0 <= i < |sym| ==>
        file[i] == if sym[i] == Ask(name) then Jmp(CALL, faddr) else old(file)[i]
    {
      var a := last;
      while a != 0
        invariant Valid() && Walked(file, old(file), sym, name, a, faddr)
        decreases -a
      {
        var pos := -a;
        WalkOne(file, old(file), sym, name, a, faddr);
        a := file[pos].addr;
        WriteAddr(pos, faddr);
      }
    }

    /** The code by name, with the same stacks. */
    ghost function Named(): Comp
      reads this, jmpAddr, neststack
      requires Valid()
    {
      View().(out := sym)
    }

    method CallLine(args: Blk, name: string)
      requires Valid() && Linked()
      modifies this`file, this`doList, this`sym
      ensures Valid() && Linked() && sym == old(sym) + [Code(args), Ask(name)]
    {
      ThreadPut(sym, defs, [Code(args)]);
      ListAfterCode(doList, sym, defs, Code(args));
      WriteBlock(args);
      CgenLjmp(CALL, PLACE_HOLDER);
      sym := sym + [Code(args)];
      AddCall(name);
      assert sym == old(sym) + [Code(args), Ask(name)];
    }

    method CodeLine(l: Line, fcn: bool, ghost base: Stack<int>, ghost lo: nat) returns (e: Option<Error>)
      requires Valid() && Linked() && Balanced(Named(), base, lo) && !l.CallLn?
      modifies this`file, this`topAddr, this`top, this`sym, jmpAddr, neststack
      ensures Valid() && Agrees(Step(old(Named()), l, fcn), e, Named())
      ensures e == None ==> Linked()
    {
      ghost var c := Named();
      StepThread(c, l, fcn, base, lo, defs);
      e := PlainLine(l, fcn);
      if e == None {
        ListAfterLine(doList, c, l, fcn, defs);
        sym := Step(c, l, fcn).c.out;
      }
    }

    /** One line of a body. */
    method CompileLine(l: Line, fcn: bool, ghost base: Stack<int>, ghost lo: nat) returns (e: Option<Error>)
      requires Valid() && Linked() && Balanced(Named(), base, lo)
      modifies this`file, this`topAddr, this`top, this`doList, this`sym, jmpAddr, neststack
      ensures Valid() && Agrees(Step(old(Named()), l, fcn), e, Named())
      ensures e == None ==> Linked() && Balanced(Named(), base, lo)
    {
      StepKeeps(Named(), l, fcn, base, lo);
      if l.CallLn? {
        CallLine(l.args, l.name);
        e := None;
      } else {
        e := CodeLine(l, fcn, base, lo);
      }
    }

    /** The lines of one module (ec), up to the next module or the end of the source. */
    method Ec(m: Module, last: bool) returns (e: Option<Error>)
      requires Valid() && Linked()
      modifies this`file, this`topAddr, this`top, this`doList, this`sym, jmpAddr, neststack
      ensures Valid() && (e == None ==> Linked())
      ensures var r := Feed(Comp(old(sym), old(View()).addrs, Empty), m.lines, m.fcn);
        if r.Err? then e == Some(r.e)
        else if last && r.c.nest.Push? then e == Some(Unbalanced(r.c.nest))
        else if !last && m.fcn && !Returns(m.lines) then e == Some(MISSING_RETURN)
        else e == None && sym == r.c.out + [Jmp(RETURN, 0)] && View().addrs == r.c.addrs
    {
      top := 0;
      ghost var c := Named();
      ghost var n := |sym|;
      BalancedStart(c);
      var i, seenRet := 0, false;
      while i < |m.lines|
        invariant 0 <= i <= |m.lines| && Valid() && Linked() && Balanced(Named(), c.addrs, n)
        invariant Returns(m.lines) == (seenRet || Returns(m.lines[i..]))
        invariant Feed(c, m.lines, m.fcn) == Feed(Named(), m.lines[i..], m.fcn)
      {
        e := CompileLine(m.lines[i], m.fcn, c.addrs, n);
        if e != None { return; }
        seenRet := seenRet || m.lines[i].ReturnLn? || m.lines[i].ReturnValLn?;
        i := i + 1;
      }
      if last && top > 0 {
        match neststack[top] {
          case IfL => return Some(UNBAL_IF);
          case WhileL => return Some(UNBAL_DOWHILE);
          case CaseL(_, _) => return Some(UNBAL_CASE);
          case _ => return Some(UNKNOWN_CONTROL);
        }
      }
      if !last && m.fcn && !seenRet { return Some(MISSING_RETURN); }
      CloseModule();
      e := None;
    }

    /** The closing RETURN, in case the body has none. */
    method CloseModule()
      requires Valid() && Linked()
      modifies this`file, this`sym
      ensures Valid() && Linked() && sym == old(sym) + [Jmp(RETURN, 0)]
    {
      ThreadPut(sym, defs, [Jmp(RETURN, 0)]);
      ListAfterCode(doList, sym, defs, Jmp(RETURN, 0));
      CgenLjmp(RETURN, 0);
      sym := sym + [Jmp(RETURN, 0)];
    }

    /** One PROCEDURE or FUNCTION line and its body. */
    method CompileModule(m: Module, last: bool, mcount: nat) returns (e: Option<Error>)
      requires Valid() && Linked() && mcount == |defs|
      modifies this`file, this`topAddr, this`top, this`doList, this`sym, this`defs, jmpAddr, neststack
      ensures Valid() && (e == None ==> Linked() && |defs| == mcount + 1)
      ensures match CompileOne(Lib(old(sym), old(defs), old(View()).addrs), m, last)
        case Failed(x) => e == Some(x)
        case Done(lib) => e == None && lib == Lib(sym, defs, View().addrs)
    {
      if mcount >= MAXMCOUNT { return Some(TOOMANYPROCS); }
      e := AddDef(m.name, m.fcn);
      if e != None { return; }
      e := Ec(m, last);
    }

    /** The whole source: the head, and the modules one behind another. */
    method CompileProc(ms: seq<Module>) returns (e: Option<Error>)
      requires Valid() && View() == Comp([], Empty, Empty) && doList == [] && sym == [] && defs == map[]
      modifies this`file, this`topAddr, this`top, this`doList, this`sym, this`defs, jmpAddr, neststack
      ensures Valid() && (e == None ==> Linked())
      ensures match CompileAll(START, ms)
        case Failed(x) => e == Some(x)
        case Done(lib) => e == None && lib == Lib(sym, defs, View().addrs)
      ensures e == None ==> Nests(ms)
    {
      if CompileAll(START, ms).Done? { FileNests(START, ms); }
      CgenLjmp(OBJ_LIB, 0);
      sym := HEADER;
      assert Thread(HEADER, defs) == HEADER;
      var i := 0;
      while i < |ms|
        invariant 0 <= i <= |ms| && Valid() && Linked() && |defs| == i
        invariant CompileAll(START, ms) == CompileAll(Lib(sym, defs, View().addrs), ms[i..])
      {
        assert ms[i..][0] == ms[i] && ms[i..][1..] == ms[i + 1..];
        e := CompileModule(ms[i], i == |ms| - 1, i);
        if e != None { return; }
        i := i + 1;
      }
      e := None;
    }

    /** The head receives the position of the table. The number of names never defined is
        counted; the oldest slot of such a name is overwritten with its number. */
    method WriteTable() returns (ecount: nat)
      requires Valid() && Linked() && sym[0].Jmp? && sym[0].jc == OBJ_LIB
      modifies this`file
      ensures Valid() && |file| == |sym|
      ensures ecount == Open(doList, |doList|)
      ensures ecount == 0 <==> forall n :: Called(sym, n) ==> n in defs
      ensures file[0] == Jmp(OBJ_LIB, |file|)
      ensures ecount == 0 ==> file == Resolve(Sealed(sym), defs)
      ensures forall i {:trigger file[i]} :: 0 < i < |sym| && !(sym[i].Ask? && sym[i].name !in defs) ==>
        file[i] == old(file)[i]
    {
      ecount := CountOpen();
      NoneOpen(doList, sym, defs);
      WriteAddr(0, |file|);
      if ecount == 0 { FileResolved(sym, defs); }
    }

    method CountOpen() returns (ecount: nat)
      requires Valid() && Linked()
      modifies this`file
      ensures Valid() && ecount == Open(doList, |doList|)
      ensures (ecount == 0 ==> file == old(file)) && Counted(file, old(file), doList, |doList|, sym, defs)
    {
      ecount := 0;
      var k := 0;
      while k < |doList|
        invariant 0 <= k <= |doList| && Valid() && ecount == Open(doList, k)
        invariant (ecount == 0 ==> file == old(file)) && Counted(file, old(file), doList, k, sym, defs)
      {
        if doList[k].faddr < 0 {
          ecount := ecount + 1;
          MarkOpen(k, ecount, old(file));
        } else {
          SkipOne(file, old(file), doList, k, sym, defs);
        }
        k := k + 1;
      }
    }

    method MarkOpen(k: nat, ecount: nat, ghost t: seq<Instr>)
      requires Valid() && |sym| > 0 && !sym[0].Ask? && ListOk(doList, sym, defs) && t == Thread(sym, defs)
      requires Counted(file, t, doList, k, sym, defs) && k < |doList| && doList[k].faddr < 0
      modifies this`file
      ensures Valid() && Counted(file, t, doList, k + 1, sym, defs)
    {
      ghost var f := file;
      NextChain(file, t, doList, k, sym, defs);
      var p := ChainEnd(doList[k].name, doList[k].faddr);
      WriteAddr(p, ecount);
      CountOne(f, t, doList, k, sym, defs, p, ecount);
    }

    /** The first call in the chain of an undefined name. */
    method ChainEnd(name: string, last: int) returns (pos: nat)
      requires Valid() && |file| == |sym| > 0 && !sym[0].Ask? && last == 0 - LastAsk(sym, name, |sym|) < 0
      requires forall i {:trigger file[i]} :: 0 <= i < |sym| && sym[i] == Ask(name) ==>
        file[i] == Jmp(CALL, 0 - LastAsk(sym, name, i))
      ensures pos < |sym| && sym[pos] == Ask(name) && LastAsk(sym, name, pos) == 0
    {
      var a := last;
      pos := -a;
      while a != 0
        invariant pos < |sym| && sym[pos] == Ask(name)
        invariant a <= 0 && -a < |sym| && (a != 0 ==> sym[-a] == Ask(name))
        invariant a == 0 ==> LastAsk(sym, name, pos) == 0
        decreases -a
      {
        pos := -a;
        a := file[pos].addr;
      }
    }
  }

  /** The loop of exec_, cut off after `budget` items. */
  method Execute(file: seq<Instr>, faddr: int, truth: seq<Blk> -> bool, room: nat, budget: nat) returns (m: Mach)
    ensures m == Steps(file, truth, room, At(faddr, [-1], []), budget)
  {
    var pc, calls, h, left := faddr, [-1], [], budget;
    while left > 0
      invariant Steps(file, truth, room, At(faddr, [-1], []), budget) ==
        Steps(file, truth, room, At(pc, calls, h), left)
    {
      ghost var now := At(pc, calls, h);
      if !(0 <= pc < |file|) { Settled(file, truth, room, now, left); return Lost(h); }
      match file[pc] {
        case Code(b) => pc, h := pc + 1, h + [b];
        case Ask(_) => Settled(file, truth, room, now, left); return Lost(h);
        case Jmp(jc, a) =>
          if jc == JMP_FALSE {
            pc := if truth(h) then pc + 1 else a;
          } else if jc == JUMP {
            pc := a;
          } else if jc == CALL {
            if |calls| > room { Settled(file, truth, room, now, left); return Overflow(h); }
            pc, calls := a, calls + [pc + 1];
          } else if jc == RETURN || jc == FCNRTN {
            if |calls| == 0 { Settled(file, truth, room, now, left); return Overflow(h); }
            var newpos := calls[|calls| - 1];
            if newpos == -1 { Settled(file, truth, room, now, left); return Halt(h); }
            pc, calls := newpos, calls[..|calls| - 1];
          }
      }
      left := left - 1;
    }
    m := At(pc, calls, h);
  }

  /** A state that stops at its next step stays where it stopped. */
  lemma Settled(f: seq<Instr>, truth: seq<Blk> -> bool, room: nat, m: Mach, k: nat)
    requires k > 0 && !Tick(f, truth, room, m).At?
    ensures Steps(f, truth, room, m, k) == Tick(f, truth, room, m)
  {
    Grows(f, truth, room, Tick(f, truth, room, m), k - 1);
  }
}
