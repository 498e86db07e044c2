/** The template interpreter of db3w.c with its state: the nest stack, the address
    stack and the position in the file, updated line by line. */
module HtmlPage {
  import opened Control
  import opened Lines
  import opened Template
  import opened ObjFile

  /** The first n entries of a stack array that is used from entry 0 on. */
  ghost function FromBase<T>(a: seq<T>, n: nat): (s: Stack<T>)
    requires n <= |a|
    ensures Len(s) == n
  {
    if n == 0 then Empty else Push(a[n - 1], FromBase(a, n - 1))
  }

  lemma {:induction false} FromBaseSame<T>(a: seq<T>, b: seq<T>, n: nat)
    requires n <= |a| && n <= |b| && forall i {:trigger b[i]} :: 0 <= i < n ==> a[i] == b[i]
    ensures FromBase(a, n) == FromBase(b, n)
    decreases n
  {
    if n > 0 { assert b[n - 1] == a[n - 1]; FromBaseSame(a, b, n - 1); }
  }

  lemma {:induction false} FewLoops(nest: Stack<Lv>, starts: Stack<int>)
    ensures Len(LoopStarts(nest, starts)) <= Len(nest)
    decreases nest
  {
    if nest.Push? && starts.Push? { FewLoops(nest.below, starts.below); }
  }

  class Page {
    var pos: int
    const neststack: array<Lv>             // entries 1..top
    var top: nat
    const hbAddr: array<int>               // entries 0..topAddr - 1
    var topAddr: nat
    var h: seq<Blk>                        // what was sent and evaluated
    ghost var starts: Stack<int>           // where the open levels start

    ghost predicate Valid()
      reads this, neststack, hbAddr
    {
      neststack.Length == MAXNEST && hbAddr.Length == MAXNEST && top < MAXNEST && topAddr <= MAXNEST && Tracked(View())
    }

    ghost function View(): State
      reads this, neststack, hbAddr
      requires top < neststack.Length && topAddr <= hbAddr.Length
    {
      State(pos, FromTop(neststack[..], top), FromBase(hbAddr[..], topAddr), h, starts, Fine)
    }

    constructor ()
      ensures Valid() && fresh(neststack) && fresh(hbAddr) && View() == FRESH
    {
      pos, top, topAddr, h, starts := 0, 0, 0, [], Empty;
      neststack := new Lv[MAXNEST](_ => Lv(KIf, false, false));
      hbAddr := new int[MAXNEST](_ => 0);
    }

    method Ignore() returns (b: bool)
      requires Valid()
      ensures b == Ign(View().nest)
    {
      b := top > 0 && neststack[top].ign;
    }

    /** Whether the surroundings of the innermost level are ignored. */
    method OuterIgnore() returns (b: bool)
      requires Valid() && top > 0
      ensures b == Ign(View().nest.below)
    {
      assert View().nest.below == FromTop(neststack[..], top - 1);
      b := top > 1 && neststack[top - 1].ign;
    }

    method PushLevel(lv: Lv) returns (ok: bool)
      requires Valid()
      modifies this`top, this`starts, this`pos, neststack
      ensures ok == (Len(old(View()).nest) + 1 < MAXNEST)
      ensures ok ==> top < MAXNEST == neststack.Length && View() == Open(old(View()), lv)
    {
      if top + 1 == MAXNEST { return false; }
      top := top + 1;
      neststack[top] := lv;
      starts := Push(pos, starts);
      pos := pos + 1;
      FromTopSame(old(neststack[..]), neststack[..], top - 1);
      ok := true;
    }

    method SetLevel(lv: Lv)
      requires Valid() && top > 0
      modifies this`pos, neststack
      ensures View() == Change(old(View()), lv)
    {
      neststack[top] := lv;
      pos := pos + 1;
      FromTopSame(old(neststack[..]), neststack[..], top - 1);
    }

    method PopLevel()
      requires Valid() && top > 0
      modifies this`top, this`starts, this`pos
      ensures top < MAXNEST && View() == Shut(old(View()))
    {
      top := top - 1;
      starts := if starts.Push? then starts.below else Empty;
      pos := pos + 1;
    }

    /** Evaluate a condition. */
    method Cond(c: Blk, truth: seq<Blk> -> bool) returns (b: bool)
      requires Valid()
      modifies this`h
      ensures Valid() && View() == old(View()).(h := old(h) + [c]) && b == truth(h)
    {
      h := h + [c];
      b := truth(h);
    }

    method WhileLine(c: Blk, truth: seq<Blk> -> bool) returns (err: Status)
      requires Valid()
      modifies this, neststack, hbAddr
      ensures var n := Process(old(View()), WhileT(c), truth); err == n.err && (err == Fine ==> Valid() && View() == n)
    {
      LineTracked(View(), WhileT(c), truth);
      FewLoops(View().nest, View().starts);
      if top + 1 == MAXNEST { return TOOMANY; }
      var ig := Ignore();
      var ok;
      if ig {
        ok := PushLevel(Lv(KWhile, true, false));
      } else {
        var b := Cond(c, truth);
        if b {
          var start := pos;
          ok := PushLevel(Lv(KWhile, false, false));
          hbAddr[topAddr] := start;
          topAddr := topAddr + 1;
          FromBaseSame(old(hbAddr[..]), hbAddr[..], topAddr - 1);
        } else {
          ok := PushLevel(Lv(KWhile, true, false));
        }
      }
      err := Fine;
    }

    method EndWhileLine(truth: seq<Blk> -> bool) returns (err: Status)
      requires Valid()
      modifies this`top, this`topAddr, this`pos, this`starts
      ensures var n := Process(old(View()), EndWhileT, truth); err == n.err && (err == Fine ==> Valid() && View() == n)
    {
      LineTracked(View(), EndWhileT, truth);
      if top == 0 || neststack[top].kind != KWhile { return Status.UNBAL_ENDWHILE; }
      var own := neststack[top].ign;
      var outer := OuterIgnore();
      PopLevel();
      if outer || own { return Fine; }
      if topAddr == 0 { return STACKFAULT; }
      topAddr := topAddr - 1;
      pos := hbAddr[topAddr];
      err := Fine;
    }

    method IfLine(c: Blk, truth: seq<Blk> -> bool) returns (err: Status)
      requires Valid()
      modifies this, neststack
      ensures var n := Process(old(View()), IfT(c), truth); err == n.err && (err == Fine ==> Valid() && View() == n)
    {
      LineTracked(View(), IfT(c), truth);
      if top + 1 == MAXNEST { return TOOMANY; }
      var ig := Ignore();
      var b := false;
      if !ig { b := Cond(c, truth); }
      var ok := PushLevel(Lv(KIf, !b, false));
      err := Fine;
    }

    method ElseLine(truth: seq<Blk> -> bool) returns (err: Status)
      requires Valid()
      modifies this`pos, neststack
      ensures var n := Process(old(View()), ElseT, truth); err == n.err && (err == Fine ==> Valid() && View() == n)
    {
      LineTracked(View(), ElseT, truth);
      if top == 0 || neststack[top].kind != KIf { return Status.MISSING_IF; }
      var lv := neststack[top];
      var outer := OuterIgnore();
      SetLevel(Lv(KElse, if outer then lv.ign else !lv.ign, lv.c));
      err := Fine;
    }

    method CaseLine(c: Blk, truth: seq<Blk> -> bool) returns (err: Status)
      requires Valid()
      modifies this`pos, this`h, neststack
      ensures var n := Process(old(View()), CaseT(c), truth); err == n.err && (err == Fine ==> Valid() && View() == n)
    {
      LineTracked(View(), CaseT(c), truth);
      if top == 0 || neststack[top].kind != KCase { return Status.MISSING_CASE; }
      var lv := neststack[top];
      var outer := OuterIgnore();
      if outer {
        SetLevel(lv);
      } else if lv.c {
        SetLevel(Lv(KCase, true, true));
      } else {
        var b := Cond(c, truth);
        SetLevel(Lv(KCase, !b, b));
      }
      err := Fine;
    }

    method OtherwiseLine(truth: seq<Blk> -> bool) returns (err: Status)
      requires Valid()
      modifies this`pos, neststack
      ensures var n := Process(old(View()), OtherwiseT, truth); err == n.err && (err == Fine ==> Valid() && View() == n)
    {
      LineTracked(View(), OtherwiseT, truth);
      if top == 0 || neststack[top].kind != KCase { return Status.MISSING_CASE; }
      var lv := neststack[top];
      var outer := OuterIgnore();
      SetLevel(Lv(KOther, if outer then lv.ign else lv.c, lv.c));
      err := Fine;
    }

    /** BEGINCASE, ENDIF, ENDCASE and text. */
    method OtherLine(l: Tag, truth: seq<Blk> -> bool) returns (err: Status)
      requires Valid() && (l.Text? || l.EndIfT? || l.BeginCaseT? || l.EndCaseT?)
      modifies this, neststack
      ensures var n := Process(old(View()), l, truth); err == n.err && (err == Fine ==> Valid() && View() == n)
    {
      LineTracked(View(), l, truth);
      var ig := Ignore();
      match l {
        case Text(t) =>
          if !ig { h := h + [t]; }
          pos := pos + 1;
        case BeginCaseT =>
          var ok := PushLevel(Lv(KCase, ig, false));
          if !ok { return TOOMANY; }
        case EndIfT =>
          if top == 0 || (neststack[top].kind != KIf && neststack[top].kind != KElse) { return Status.UNBAL_ENDIF; }
          PopLevel();
        case EndCaseT =>
          if top == 0 || (neststack[top].kind != KCase && neststack[top].kind != KOther) {
            return Status.UNBAL_ENDCASE;
          }
          PopLevel();
      }
      err := Fine;
    }

    method ProcessLine(l: Tag, truth: seq<Blk> -> bool) returns (err: Status)
      requires Valid()
      modifies this, neststack, hbAddr
      ensures var n := Process(old(View()), l, truth); err == n.err && (err == Fine ==> Valid() && View() == n)
    {
      match l
      case WhileT(c) => err := WhileLine(c, truth);
      case EndWhileT => err := EndWhileLine(truth);
      case IfT(c) => err := IfLine(c, truth);
      case ElseT => err := ElseLine(truth);
      case CaseT(c) => err := CaseLine(c, truth);
      case OtherwiseT => err := OtherwiseLine(truth);
      case _ => err := OtherLine(l, truth);
    }

    method CheckEnd() returns (err: Status)
      requires Valid()
      ensures err == AtEnd(View().nest)
    {
      if top == 0 { return Fine; }
      match neststack[top].kind
      case KIf => err := Status.UNBAL_IF;
      case KWhile => err := UNBAL_WHILE;
      case KCase => err := Status.UNBAL_CASE;
      case _ => err := Status.UNKNOWN_CONTROL;
    }

    /** The loop of hb_html, cut off after `budget` lines, and the check at the end of the file. */
    method HbHtml(lines: seq<Tag>, truth: seq<Blk> -> bool, budget: nat) returns (err: Status)
      requires Valid() && View() == FRESH
      modifies this, neststack, hbAddr
      ensures var n := Template.Steps(lines, truth, FRESH, budget);
        && err == (if n.err == Fine && n.pos >= |lines| then AtEnd(n.nest) else n.err)
        && (n.err == Fine ==> Valid() && View() == n)
    {
      var left := budget;
      err := Fine;
      while left > 0 && 0 <= pos < |lines|
        invariant Valid() && err == Fine
        invariant Template.Steps(lines, truth, FRESH, budget) == Template.Steps(lines, truth, View(), left)
      {
        ghost var now := View();
        err := ProcessLine(lines[pos], truth);
        left := left - 1;
        if err != Fine {
          Sent(lines, truth, Next(lines, truth, now), left);
          return;
        }
      }
      Sent(lines, truth, View(), left);
      if pos >= |lines| { err := CheckEnd(); }
    }
  }
}
