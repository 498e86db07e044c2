/**
 * The code array of one command and the compilers that fill and patch it (server/hb/code.c:34-45,
 * server/hb/proc2.c:36-113, 468-487, 664-732).
 */
module ScopeCompile {
  import opened Pcode
  import opened ScopeCode
  import opened ScopeClauses

  /** Bitwise or. */
  function BitOr(a: nat, b: nat): nat {
    if a == 0 then b else if b == 0 then a else 2 * BitOr(a / 2, b / 2) + (if a % 2 == 1 || b % 2 == 1 then 1 else 0)
  }

  datatype Status = Fine | Failed(e: Err)

  /** What the bitwise patches rely on: nothing was added before. */
  predicate Unpatched(f: Form) { f.h.go == 1 && (!f.st.next ==> f.h.n == 0 && f.h.skip == 1) }

  lemma PatchAt(f: Form, g: Form, i: nat, x: Pcode)
    requires i < 10 && g.pre == f.pre && g.tail == f.tail && Ten(|f.pre|, g.h) == Ten(|f.pre|, f.h)[i := x]
    ensures Code(g) == Code(f)[|f.pre| + i := x]
  {
  }

  lemma HeadEnds(g: Form, e: int)
    ensures Code(g.(h := g.h.(end := e))) ==
            Code(g)[|g.pre| + 3 := Code(g)[|g.pre| + 3].(opnd := e)][|g.pre| + 4 := Code(g)[|g.pre| + 4].(opnd := e)]
  {
    TenAt(g, 3);
    TenAt(g, 4);
  }

  class CodeBuffer {
    var pcode: array<Pcode>
    var nextcode: nat

    ghost predicate Valid() reads this { pcode.Length == CODE_LIMIT && nextcode <= CODE_LIMIT }

    ghost function Contents(): (s: seq<Pcode>)
      requires Valid()
      reads this, pcode
      ensures |s| == nextcode
    {
      pcode[..nextcode]
    }

    constructor ()
      ensures Valid() && Contents() == [] && fresh(pcode)
    {
      pcode := new Pcode[CODE_LIMIT](_ => Pcode(NOP, 0));
      nextcode := 0;
    }

    /** codegen. */
    method Codegen(i: Pcode) returns (r: Status)
      requires Valid()
      modifies this`nextcode, pcode
      ensures Valid()
      ensures r == if old(nextcode) == CODE_LIMIT then Failed(EXP_TOOLONG) else Fine
      ensures Contents() == if r.Fine? then old(Contents()) + [i] else old(Contents())
    {
      if nextcode == CODE_LIMIT { return Failed(EXP_TOOLONG); }
      pcode[nextcode] := i;
      nextcode := nextcode + 1;
      r := Fine;
      assert pcode[..nextcode] == pcode[..nextcode - 1] + [i];
    }

    /** Stretches of code, as the compilers of expressions and field lists generate them. */
    method CodegenAll(body: seq<Pcode>) returns (r: Status)
      requires Valid()
      modifies this`nextcode, pcode
      ensures Valid()
      ensures r == if old(nextcode) + |body| > CODE_LIMIT then Failed(EXP_TOOLONG) else Fine
      ensures r.Fine? ==> Contents() == old(Contents()) + body
    {
      ghost var was := Contents();
      var i := 0;
      while i < |body|
        invariant Valid() && i <= |body| && Contents() == was + body[..i]
      {
        r := Codegen(body[i]);
        if r.Failed? { return; }
        i := i + 1;
      }
      assert body[..i] == body;
      r := Fine;
    }

    /** mod_op with an operand to set: the place where code is generated next. */
    method ModHere(which: nat)
      requires Valid() && which < nextcode
      modifies pcode
      ensures Contents() == old(Contents())[which := old(Contents()[which]).(opnd := nextcode)]
    {
      pcode[which] := pcode[which].(opnd := nextcode);
    }

    /** mod_op with an operand to add by bitwise or. */
    method ModOp(which: nat, what: nat)
      requires Valid() && which < nextcode && pcode[which].opnd >= 0
      modifies pcode
      ensures Contents() ==
        old(Contents())[which := old(Contents()[which]).(opnd := BitOr(old(Contents()[which].opnd), what))]
    {
      pcode[which] := pcode[which].(opnd := BitOr(pcode[which].opnd, what));
    }

    method ModCode(which: nat, opcode: Opcode)
      requires Valid() && which < nextcode
      modifies pcode
      ensures Contents() == old(Contents())[which := old(Contents()[which]).(opcode := opcode)]
    {
      pcode[which] := pcode[which].(opcode := opcode);
    }

    /** fcodegen. */
    method Fcodegen(offset: nat, act: Pcode, ghost b: Bodies, ghost fields: bool) returns (r: Status)
      requires Valid() && offset == nextcode
      modifies this`nextcode, pcode
      ensures Valid()
      ensures var f := Begin(old(Contents()), act, b, fields);
        r == (if |Code(f)| > CODE_LIMIT then Failed(EXP_TOOLONG) else Fine) && (r.Fine? ==> Contents() == Code(f))
    {
      r := CodegenAll([Pcode(SCOPE_F, 0), Pcode(GO_, 1), Pcode(CALL, 0), Pcode(JMP_FALSE, 0), Pcode(JMP_EOF_0, 0),
                       Pcode(CALL, 0), Pcode(JMP_FALSE, offset + 8), act, Pcode(SKIP_, 1), Pcode(JUMP, offset + 2)]);
      assert old(Contents()) + Ten(offset, Begin(old(Contents()), act, b, fields).h) + [] ==
             old(Contents()) + Ten(offset, Begin(old(Contents()), act, b, fields).h);
    }

    /** The buffer holds f. */
    ghost predicate Holds(f: Form)
      reads this, pcode
    {
      Valid() && Contents() == Code(f)
    }

    /** The outcome of a patch, as the status and the flags it leaves. */
    ghost predicate Agrees(r: Status, st: Stat, o: Outcome<Form>) {
      match o case Ok(g) => r.Fine? && st == g.st case Bad(e) => r == Failed(e)
    }

    /** A subroutine and its return. */
    method Subroutine(body: seq<Pcode>, ghost f: Form) returns (r: Status)
      requires Holds(f)
      modifies this`nextcode, pcode
      ensures Valid()
      ensures r == (match WithSub(f, body) case Ok(_) => Fine case Bad(e) => Failed(e))
      ensures r.Fine? ==> Holds(WithSub(f, body).v)
    {
      r := CodegenAll(body);
      if r.Failed? { return; }
      r := Codegen(RET);
      if r.Fine? { assert Contents() == Code(f) + body + [RET]; }
    }
  
    method ProcessFor(offset: nat, body: seq<Pcode>, st: Stat, ghost f: Form) returns (r: Status, st': Stat)
      requires Holds(f) && offset == |f.pre| && st == f.st
      modifies this`nextcode, pcode
      ensures Valid() && Agrees(r, st', Add(f, For(body)))
      ensures r.Fine? ==> Holds(Add(f, For(body)).v)
    {
      st' := st;
      if st.for_ { return Failed(EXCESS_SYNTAX), st; }
      ghost var g := f.(h := f.h.(fAddr := |Code(f)|), st := f.st.(for_ := true), b := f.b.(f := body));
      st' := st.(for_ := true);
      ModHere(offset + 5);
      PatchAt(f, g, 5, Pcode(CALL, |Code(f)|));
      r := Subroutine(body, g);
    }

    method ProcessWhile(offset: nat, body: seq<Pcode>, st: Stat, ghost f: Form) returns (r: Status, st': Stat)
      requires Holds(f) && offset == |f.pre| && st == f.st
      modifies this`nextcode, pcode
      ensures Valid() && Agrees(r, st', Add(f, While(body)))
      ensures r.Fine? ==> Holds(Add(f, While(body)).v)
    {
      st' := st;
      if st.while_ { return Failed(EXCESS_SYNTAX), st; }
      ghost var g := f.(h := f.h.(wAddr := |Code(f)|), st := f.st.(while_ := true), b := f.b.(w := body));
      st' := st.(while_ := true);
      ModHere(offset + 2);
      PatchAt(f, g, 2, Pcode(CALL, |Code(f)|));
      r := Subroutine(body, g);
    }

    method ProcessNext(offset: nat, back: bool, isInt: bool, k: nat, st: Stat, ghost f: Form)
      returns (r: Status, st': Stat)
      requires Holds(f) && offset == |f.pre| && st == f.st && Unpatched(f)
      modifies this`nextcode, pcode
      ensures Valid() && Agrees(r, st', Add(f, Next(back, isInt, k)))
      ensures r.Fine? ==> Holds(Add(f, Next(back, isInt, k)).v)
    {
      st' := st;
      if st.next { return Failed(EXCESS_SYNTAX), st; }
      if !isInt { return Failed(INVALID_VALUE), st; }
      st' := st.(next := true);
      TenAt(f, 0);
      ModOp(offset, k);
      ghost var g := f.(h := f.h.(n := k), st := f.st.(next := true));
      PatchAt(f, g, 0, Pcode(f.h.scope, k));
      if back {
        ghost var g1 := g.(h := g.h.(scope := SCOPE_B));
        TenAt(g, 0);
        ModCode(offset, SCOPE_B);
        PatchAt(g, g1, 0, Pcode(SCOPE_B, k));
        TenAt(g1, 8);
        ModOp(offset + 8, 0x81);
        PatchAt(g1, g1.(h := g1.h.(skip := 0x81)), 8, Pcode(SKIP_, 0x81));
      }
      r := Fine;
    }

    /** process_fcode; a clause it does not know is a syntax error of its caller. */
    method ProcessFcode(offset: nat, it: Item, st: Stat, ghost f: Form) returns (r: Status, st': Stat)
      requires Holds(f) && offset == |f.pre| && st == f.st && Unpatched(f) && !it.Fields?
      modifies this`nextcode, pcode
      ensures Valid() && Agrees(r, st', Add(f, it))
      ensures r.Fine? ==> Holds(Add(f, it).v) && Unpatched(Add(f, it).v)
    {
      match it
      case All =>
        r, st' := Fine, st.(all := true);
        if st.all { r, st' := Failed(EXCESS_SYNTAX), st; }
      case Next(back, isInt, k) => r, st' := ProcessNext(offset, back, isInt, k, st, f);
      case For(body) => r, st' := ProcessFor(offset, body, st, f);
      case While(body) => r, st' := ProcessWhile(offset, body, st, f);
      case Junk => r, st' := Failed(ILL_SYNTAX), st;
    }

    /** The list of an update after its clauses have begun. */
    method ProcessFields(offset: nat, body: seq<Pcode>, st: Stat, ghost f: Form) returns (r: Status, st': Stat)
      requires Holds(f) && offset == |f.pre| && st == f.st
      modifies this`nextcode, pcode
      ensures Valid() && Agrees(r, st', Add(f, Fields(body)))
      ensures r.Fine? ==> Holds(Add(f, Fields(body)).v)
    {
      st' := st;
      if st.fields { return Failed(ILL_SYNTAX), st; }
      ghost var g := f.(h := f.h.(act := f.h.act.(opnd := |Code(f)|)), st := f.st.(fields := true),
          b := f.b.(act := body));
      st' := st.(fields := true);
      TenAt(f, 7);
      ModHere(offset + 7);
      PatchAt(f, g, 7, g.h.act);
      r := Subroutine(body, g);
    }

    /** The first patches of fmod_op. */
    method Defaults(offset: nat, st: Stat, ghost f: Form) returns (ghost g: Form)
      requires Holds(f) && offset == |f.pre| && st == f.st
      modifies pcode
      ensures g == f.(h := f.h.(fAddr := if st.for_ then f.h.fAddr
        else |Code(f)|, wAddr := if st.while_ then f.h.wAddr else |Code(f)|))
      ensures Holds(g)
    {
      g := f;
      if !st.for_ {
        ModHere(offset + 5);
        g := f.(h := f.h.(fAddr := |Code(f)|));
        PatchAt(f, g, 5, Pcode(CALL, |Code(f)|));
      }
      if !st.while_ {
        ghost var g' := g.(h := g.h.(wAddr := |Code(f)|));
        ModHere(offset + 2);
        PatchAt(g, g', 2, Pcode(CALL, |Code(f)|));
        g := g';
      }
    }

    /** The last patches of fmod_op: where the loop starts and where it is left. */
    method Ends(offset: nat, st: Stat, ghost f: Form)
      requires Holds(f) && offset == |f.pre| && f.h.go == 1
      modifies pcode
      ensures Holds(f.(h := f.h.(go := if st.next then 5 else 1, end := |Code(f)|)))
    {
      ghost var g := f;
      if st.next {
        TenAt(f, 1);
        ModOp(offset + 1, 4);
        g := f.(h := f.h.(go := 5));
        PatchAt(f, g, 1, Pcode(GO_, 5));
      }
      ghost var e := |Code(f)|;
      ModHere(offset + 3);
      ModHere(offset + 4);
      HeadEnds(g, e);
    }

    /** fmod_op. */
    method FmodOp(offset: nat, st: Stat, ghost f: Form) returns (r: Status)
      requires Holds(f) && offset == |f.pre| && st == f.st && Unpatched(f)
      modifies this`nextcode, pcode
      ensures Valid()
      ensures r == match Close(f) case Ok(_) => Fine case Bad(e) => Failed(e)
      ensures r.Fine? ==> Holds(Close(f).v)
    {
      ghost var g := f;
      if !st.next {
        TenAt(f, 0);
        ModOp(offset, 0xff);
        g := f.(h := f.h.(n := 0xff));
        PatchAt(f, g, 0, Pcode(f.h.scope, 0xff));
      }
      r := Fine;
      if !st.for_ || !st.while_ {
        g := Defaults(offset, st, g);
        r := Subroutine([Pcode(PUSH_TF, 1)], g);
        if r.Failed? { return; }
        g := WithSub(g, ALWAYS).v;
      }
      Ends(offset, st, g);
    }
  
    /** The clauses of a command one after another, and the end of its loop. */
    method Clauses(offset: nat, items: seq<Item>, st: Stat, ghost f: Form) returns (r: Status, st': Stat)
      requires Holds(f) && offset == |f.pre| && st == f.st && Unpatched(f) && |Code(f)| <= CODE_LIMIT
      modifies this`nextcode, pcode
      ensures Valid() && Agrees(r, st', Compile(f, items))
      ensures r.Fine? ==> Holds(Compile(f, items).v)
    {
      ghost var g := f;
      var i := 0;
      st' := st;
      while i < |items|
        invariant i <= |items| && Holds(g) && g.pre == f.pre && st' == g.st && Unpatched(g)
        invariant AddAll(g, items[i..]) == AddAll(f, items)
      {
        assert items[i..][0] == items[i] && items[i..][1..] == items[i + 1..];
        ghost var o := Add(g, items[i]);
        match items[i] {
          case Fields(body) => r, st' := ProcessFields(offset, body, st', g);
          case _ => r, st' := ProcessFcode(offset, items[i], st', g);
        }
        if r.Failed? { return; }
        g := o.v;
        i := i + 1;
      }
      assert items[i..] == [];
      r := FmodOp(offset, st', g);
    }

    /** A command with one operation (process_count, process_delrec) from where the code has got to. */
    method CompileOne(act: Pcode, items: seq<Item>) returns (r: Status)
      requires Valid()
      modifies this`nextcode, pcode
      ensures Valid()
      ensures var o := Compile(OneForm(old(Contents()), act), items);
        r == (match o case Ok(_) => Fine case Bad(e) => Failed(e)) && (r.Fine? ==> Contents() == Code(o.v))
    {
      ghost var f := OneForm(Contents(), act);
      var offset := nextcode;
      r := Fcodegen(offset, act, f.b, true);
      if r.Failed? { return; }
      var st;
      r, st := Clauses(offset, items, Stat(false, false, false, false, true), f);
    }

    /** process_replace. */
    method CompileReplace(lead: Lead, items: seq<Item>) returns (r: Status)
      requires Valid() && nextcode == 0
      modifies this`nextcode, pcode
      ensures Valid()
      ensures var o := Replace(lead, items);
        r == (match o case Ok(_) => Fine case Bad(e) => Failed(e)) && (r.Fine? ==> Contents() == o.v)
    {
      ghost var f := ClausesForm();
      var fields := lead.FieldsFirst?;
      if fields {
        r := Codegen(Pcode(JUMP, 1));
        if r.Failed? { return; }
        r := CodegenAll(lead.body);
        if r.Failed? { return; }
        if |items| > 0 {
          r := Codegen(RET);
          if r.Failed? { return; }
          ModHere(0);
          f := FieldsForm(lead.body);
          assert Contents() == f.pre;
        }
      }
      if |items| > 0 {
        var offset := nextcode;
        assert Contents() == f.pre;
        r := Fcodegen(offset, Pcode(CALL, 1), f.b, fields);
        if r.Failed? { return; }
        var st;
        r, st := Clauses(offset, items, Stat(false, false, false, false, fields), f);
        if r.Failed? { return; }
        fields := st.fields;
      }
      if !fields { return Failed(BAD_EXP); }
      r := Codegen(Pcode(PUTREC, 1));
    }
  }
}
