/**
 * The compression function of Tiger as its authors describe it (R. Anderson and E. Biham, "Tiger: A
 * Fast New Hash Function", 1996): 24 rounds in which three registers take turns, eight with each of
 * three keys. That is what the three passes of misc/tiger32/tiger.c:68-142 come to.
 */
module TigerReference {
  import opened Tiger

  /** Bit k of the exclusive or. */
  lemma {:induction false} XorBit(a: nat, b: nat, k: nat)
    ensures Xor(a, b) / Pow2(k) % 2 == (a / Pow2(k) + b / Pow2(k)) % 2
    decreases k
  {
    if k > 0 {
      XorBit(a / 2, b / 2, k - 1);
      HalfOf(a, Pow2(k - 1));
      HalfOf(b, Pow2(k - 1));
      HalfOf(Xor(a, b), Pow2(k - 1));
      assert Xor(a, b) / 2 == Xor(a / 2, b / 2);
    } else {
      assert a / 1 == a && b / 1 == b && Xor(a, b) / 1 == Xor(a, b);
    }
  }

  lemma HalfOf(a: nat, p: nat)
    requires p > 0
    ensures a / (2 * p) == a / 2 / p
  {
    var q, r := a / 2, a % 2;
    var u, v := q / p, q % p;
    assert q == u * p + v && a == 2 * q + r;
    assert a == u * (2 * p) + (2 * v + r) && 2 * v + r < 2 * p;
    Quotient(a, 2 * p, u, 2 * v + r);
  }

  lemma Quotient(a: nat, d: nat, u: nat, w: nat)
    requires d > 0 && a == u * d + w && w < d
    ensures a / d == u
  {
    var x, y := a / d, a % d;
    assert a == x * d + y && (x - u) * d == w - y;
    if x != u { Apart(x - u, d); }
  }

  lemma Apart(n: int, d: int)
    requires n != 0 && d > 0
    ensures n * d >= d || n * d <= -d
  {
    if n > 0 { Positive(n - 1, d); } else { Positive(-n - 1, d); }
  }

  lemma Positive(n: nat, d: nat)
    ensures n * d >= 0 && (n + 1) * d == n * d + d && (-(n + 1)) * d == -(n * d) - d
  {
  }

  /** Arithmetic on words of 64 bits wraps around. */
  lemma Wrapped(a: word64, b: word64, m: nat)
    ensures Add64(a, b) == (a + b) % 0x1_0000_0000_0000_0000
    ensures Sub64(a, b) == (a - b) % 0x1_0000_0000_0000_0000
    ensures Mul64(a, m) == (a * m) % 0x1_0000_0000_0000_0000
    ensures Not64(a) == 0xFFFF_FFFF_FFFF_FFFF - a && Shl64(a, m) == (a * m) % 0x1_0000_0000_0000_0000
  {
  }

  // ---- the key schedule ----

  /** The 16 assignments, in order; 19 and 23 are the shifts. */
  lemma ScheduleIs(x: seq<word64>)
    requires |x| == 8
    ensures var y0 := Sub64(x[0], Xor64(x[7], 0xA5A5A5A5A5A5A5A5));
      var y1 := Xor64(x[1], y0);
      var y2 := Add64(x[2], y1);
      var y3 := Sub64(x[3], Xor64(y2, Shl64(Not64(y1), 0x8_0000)));
      var y4 := Xor64(x[4], y3);
      var y5 := Add64(x[5], y4);
      var y6 := Sub64(x[6], Xor64(y5, Not64(y4) / 0x80_0000));
      var y7 := Xor64(x[7], y6);
      var z0 := Add64(y0, y7);
      var z1 := Sub64(y1, Xor64(z0, Shl64(Not64(y7), 0x8_0000)));
      var z2 := Xor64(y2, z1);
      var z3 := Add64(y3, z2);
      var z4 := Sub64(y4, Xor64(z3, Not64(z2) / 0x80_0000));
      var z5 := Xor64(y5, z4);
      var z6 := Add64(y6, z5);
      var z7 := Sub64(y7, Xor64(z6, 0x0123456789ABCDEF));
      Schedule(x) == [z0, z1, z2, z3, z4, z5, z6, z7]
  {
  }

  // ---- the rounds ----

  /** Byte k of a word, the lowest being byte 0. */
  function Byte(c: word64, k: nat): nat
    requires k < 8
  {
    var p := match k
      case 0 => 1 case 1 => 0x100 case 2 => 0x1_0000 case 3 => 0x100_0000 case 4 => 0x1_0000_0000
      case 5 => 0x100_0000_0000 case 6 => 0x1_0000_0000_0000 case _ => 0x100_0000_0000_0000;
    c / p % 256
  }

  /** One round: c takes the key word, a loses what the even bytes of c stand for, b gains what the odd
      ones do and is multiplied. */
  function Mixed(a: word64, b: word64, c: word64, x: word64, mul: nat, t: Boxes): Regs {
    var k := Xor64(c, x);
    var even := X4(t.t1(Byte(k, 0)), t.t2(Byte(k, 2)), t.t3(Byte(k, 4)), t.t4(Byte(k, 6)));
    var odd := X4(t.t4(Byte(k, 1)), t.t3(Byte(k, 3)), t.t2(Byte(k, 5)), t.t1(Byte(k, 7)));
    Regs(Sub64(a, even), Mul64(Add64(b, odd), mul), k)
  }

  /** The registers take turns in being a, b and c of the round. */
  datatype Phase = FIRST | SECOND | THIRD

  function Turn(v: Regs, j: Phase, x: word64, mul: nat, t: Boxes): Regs {
    match j
    case FIRST => Mixed(v.a, v.b, v.c, x, mul, t)
    case SECOND => var m := Mixed(v.b, v.c, v.a, x, mul, t); Regs(m.c, m.a, m.b)
    case THIRD => var m := Mixed(v.c, v.a, v.b, x, mul, t); Regs(m.b, m.c, m.a)
  }

  function Next(j: Phase): Phase { match j case FIRST => SECOND case SECOND => THIRD case THIRD => FIRST }

  /** The rounds of one pass. */
  type Turning = (Regs, Phase, word64) -> Regs

  function By(mul: nat, t: Boxes): Turning { (v: Regs, j: Phase, x: word64) => Turn(v, j, x, mul, t) }

  /** The rounds with the words from the k-th on. */
  function Turns(g: Turning, v: Regs, j: Phase, x: seq<word64>, k: nat): Regs
    requires |x| == 8 && k <= 8
    decreases 8 - k
  {
    if k == 8 then v else Turns(g, g(v, j, x[k]), Next(j), x, k + 1)
  }

  /** The registers as the round sees them. */
  function Seen(v: Regs, j: Phase): Regs {
    match j case FIRST => v case SECOND => Regs(v.b, v.c, v.a) case THIRD => Regs(v.c, v.a, v.b)
  }

  /** One step of a pass. */
  type Rounding = (Regs, word64) -> Regs

  /** g does what f does, on the registers as they are seen. */
  ghost predicate Does(g: Turning, f: Rounding) {
    forall v, j, x {:trigger g(v, j, x)} :: Seen(g(v, j, x), j) == f(Seen(v, j), x)
  }

  lemma DoesRounds(mul: nat, t: Boxes)
    ensures Does(By(mul, t), Rounds(mul, t))
  {
    forall v, j, x {:trigger By(mul, t)(v, j, x)}
      ensures Seen(By(mul, t)(v, j, x), j) == Rounds(mul, t)(Seen(v, j), x)
    {
      MixedIs(Seen(v, j), x, mul, t);
    }
  }

  lemma MixedIs(r: Regs, x: word64, mul: nat, t: Boxes)
    ensures Mixed(r.a, r.b, r.c, x, mul, t) == Round(r, x, mul, t)
  {
  }

  lemma Rotated(v: Regs, j: Phase)
    ensures var s := Seen(v, j); Seen(v, Next(j)) == Regs(s.b, s.c, s.a)
  {
  }

  /** Eight rounds are a pass. */
  lemma PassIs(g: Turning, f: Rounding, v: Regs, j: Phase, x: seq<word64>)
    requires |x| == 8 && Does(g, f)
    ensures Seen(Turns(g, v, j, x, 0), j) == Pass(f, Seen(v, j), x)
  {
    var k, l := Next(j), Next(Next(j));
    assert Next(l) == j;
    var v1 := g(v, j, x[0]);
    var v2 := g(v1, k, x[1]);
    var v3 := g(v2, l, x[2]);
    var v4 := g(v3, j, x[3]);
    var v5 := g(v4, k, x[4]);
    var v6 := g(v5, l, x[5]);
    var v7 := g(v6, j, x[6]);
    var v8 := g(v7, k, x[7]);
    AllTurns(g, v, j, x);
    Rotated(v1, j);
    Rotated(v2, k);
    Rotated(v3, l);
    Rotated(v4, j);
    Rotated(v5, k);
    Rotated(v6, l);
    Rotated(v7, j);
    Rotated(v8, k);
    Rotated(v8, l);
  }

  lemma AllTurns(g: Turning, v: Regs, j: Phase, x: seq<word64>)
    requires |x| == 8
    ensures var k := Next(j); var l := Next(k);
      Turns(g, v, j, x, 0) ==
        g(g(g(g(g(g(g(g(v, j, x[0]), k, x[1]), l, x[2]), j, x[3]), k, x[4]), l, x[5]), j, x[6]), k, x[7])
  {
    var k, l := Next(j), Next(Next(j));
    assert Next(l) == j;
    TwoTurns(g, v, j, x, 0);
    TwoTurns(g, g(g(v, j, x[0]), k, x[1]), l, x, 2);
    var v4 := g(g(g(g(v, j, x[0]), k, x[1]), l, x[2]), j, x[3]);
    TwoTurns(g, v4, k, x, 4);
    TwoTurns(g, g(g(v4, k, x[4]), l, x[5]), j, x, 6);
  }

  lemma TwoTurns(g: Turning, v: Regs, j: Phase, x: seq<word64>, i: nat)
    requires |x| == 8 && i + 2 <= 8
    ensures Turns(g, v, j, x, i) == Turns(g, g(g(v, j, x[i]), Next(j), x[i + 1]), Next(Next(j)), x, i + 2)
  {
  }

  /** The compression function: 24 rounds over the words of the block and of two schedules after it, each
      round with the register after the last one's in the place of a; multiplied by 5, 7 and 9; and then
      the old registers come in again. */
  lemma CompressIs(r: Regs, x: seq<word64>, t: Boxes)
    requires |x| == 8
    ensures var u := Turns(By(5, t), r, FIRST, x, 0);
      var v := Turns(By(7, t), u, THIRD, Schedule(x), 0);
      var w := Turns(By(9, t), v, SECOND, Schedule(Schedule(x)), 0);
      Compress(r, x, t) == Regs(Xor64(w.a, r.a), Sub64(w.b, r.b), Add64(w.c, r.c))
  {
    var y, z := Schedule(x), Schedule(Schedule(x));
    Applied(x);
    Applied(y);
    Passed(t, 0, 5, r, FIRST, x);
    var u := Turns(By(5, t), r, FIRST, x, 0);
    Passed(t, 1, 7, u, THIRD, y);
    var v := Turns(By(7, t), u, THIRD, y, 0);
    Passed(t, 2, 9, v, SECOND, z);
    Threefold(PassesOf(t), Scheduling(), r, x, y, z, u, v, Turns(By(9, t), v, SECOND, z, 0));
  }

  lemma Applied(x: seq<word64>)
    requires |x| == 8
    ensures Scheduling()(x) == Schedule(x)
  {
  }

  lemma Passed(t: Boxes, n: nat, mul: nat, v: Regs, j: Phase, x: seq<word64>)
    requires |x| == 8 && ((n == 0 && mul == 5) || (n == 1 && mul == 7) || (n == 2 && mul == 9))
    ensures PassesOf(t)(n, Seen(v, j), x) == Seen(Turns(By(mul, t), v, j, x, 0), j)
  {
    DoesRounds(mul, t);
    PassIs(By(mul, t), Rounds(mul, t), v, j, x);
  }

  /** Three passes, of which each gives the registers to the next one turned on. */
  lemma Threefold(pass: Passes, next: Scheduler, r: Regs, x: seq<word64>, y: seq<word64>, z: seq<word64>, u: Regs,
                  v: Regs, w: Regs)
    requires next(x) == y && next(y) == z
    requires pass(0, Seen(r, FIRST), x) == Seen(u, FIRST) && pass(1, Seen(u, THIRD), y) == Seen(v, THIRD)
    requires pass(2, Seen(v, SECOND), z) == Seen(w, SECOND)
    ensures ThreePasses(pass, next, r, x) == w
  {
  }
}
