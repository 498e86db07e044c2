/** The compression function of the Tiger hash on pairs of 32-bit words: carries,
    multiplications by shifting, and the key schedule agree with 64-bit arithmetic.

    Words are the numbers below 2^32 (below 2^64 for the reference), with the wrap-around
    of every operation written out. */
module Tiger {

  const T9: nat := 0x200
  const T13: nat := 0x2000
  const T19: nat := 0x8_0000
  const T23: nat := 0x80_0000
  const T32: nat := 0x1_0000_0000
  const T64: nat := 0x1_0000_0000_0000_0000

  type word32 = x: nat | x < T32
  type word64 = x: nat | x < T64

  // ---------------------------------------------------------- operations on bits

  /** Bitwise exclusive or, of numbers of any width. */
  function Xor(a: nat, b: nat): nat
    decreases a + b
  {
    if a == 0 && b == 0 then 0 else (a % 2 + b % 2) % 2 + 2 * Xor(a / 2, b / 2)
  }

  /** Bitwise or. */
  function Or(a: nat, b: nat): nat
    decreases a + b
  {
    if a == 0 && b == 0 then 0 else (if a % 2 == 1 || b % 2 == 1 then 1 else 0) + 2 * Or(a / 2, b / 2)
  }

  function Pow2(k: nat): (p: nat)
    ensures p > 0
  {
    if k == 0 then 1 else 2 * Pow2(k - 1)
  }

  lemma {:induction false} XorBound(a: nat, b: nat, k: nat)
    requires a < Pow2(k) && b < Pow2(k)
    ensures Xor(a, b) < Pow2(k)
    decreases k
  {
    if k > 0 && (a != 0 || b != 0) { XorBound(a / 2, b / 2, k - 1); }
  }

  /** The `k` low bits of `b` behind the bits of `a`. */
  function Behind(a: nat, b: nat, k: nat): nat {
    if k == 0 then a else 2 * Behind(a, b / 2, k - 1) + b % 2
  }

  lemma {:induction false} BehindIs(a: nat, b: nat, k: nat)
    requires b < Pow2(k)
    ensures Behind(a, b, k) == a * Pow2(k) + b
    decreases k
  {
    if k > 0 {
      BehindIs(a, b / 2, k - 1);
      Twice(a, Pow2(k - 1));
    }
  }

  lemma {:induction false} XorBehind(a: nat, b: nat, c: nat, d: nat, k: nat)
    ensures Xor(Behind(a, b, k), Behind(c, d, k)) == Behind(Xor(a, c), Xor(b, d), k)
    decreases k
  {
    if k > 0 {
      var j, l := Behind(a, b / 2, k - 1), Behind(c, d / 2, k - 1);
      XorBehind(a, b / 2, c, d / 2, k - 1);
      XorTwo(j, l, b % 2, d % 2);
      XorHalf(b, d);
    }
  }

  lemma XorTwo(j: nat, l: nat, x: nat, y: nat)
    requires x < 2 && y < 2
    ensures Xor(2 * j + x, 2 * l + y) == (x + y) % 2 + 2 * Xor(j, l)
  {
    LastBit(x, j);
    LastBit(y, l);
    XorStep(2 * j + x, 2 * l + y);
  }

  lemma XorHalf(b: nat, d: nat)
    ensures Xor(b, d) / 2 == Xor(b / 2, d / 2) && Xor(b, d) % 2 == (b % 2 + d % 2) % 2
  {
    XorStep(b, d);
    LastBit((b % 2 + d % 2) % 2, Xor(b / 2, d / 2));
  }

  lemma LastBit(bit: nat, x: nat)
    requires bit < 2
    ensures (2 * x + bit) / 2 == x && (2 * x + bit) % 2 == bit
  {
  }

  /** The exclusive or of two words is that of their upper parts and of their lower parts. */
  lemma XorParts(a: nat, b: nat, c: nat, d: nat, k: nat)
    requires b < Pow2(k) && d < Pow2(k)
    ensures Xor(a * Pow2(k) + b, c * Pow2(k) + d) == Xor(a, c) * Pow2(k) + Xor(b, d)
  {
    BehindIs(a, b, k);
    BehindIs(c, d, k);
    XorBehind(a, b, c, d, k);
    XorBound(b, d, k);
    BehindIs(Xor(a, c), Xor(b, d), k);
  }

  lemma Twice(x: nat, p: nat)
    ensures x * (2 * p) == 2 * (x * p)
  {
  }

  lemma Half(a: nat, b: nat, p: nat)
    requires b < 2 * p
    ensures (a * (2 * p) + b) / 2 == a * p + b / 2 && (a * (2 * p) + b) % 2 == b % 2
  {
    Twice(a, p);
  }

  lemma NotHalf(a: nat, p: nat)
    requires a < 2 * p
    ensures (2 * p - 1 - a) / 2 == p - 1 - a / 2 && (2 * p - 1 - a) % 2 == 1 - a % 2
  {
  }

  lemma XorStep(a: nat, b: nat)
    ensures Xor(a, b) == (a % 2 + b % 2) % 2 + 2 * Xor(a / 2, b / 2)
  {
    if a == 0 && b == 0 { assert Xor(0, 0) == 0; }
  }

  /** Complementing one side complements the result. */
  lemma {:induction false} XorNot(a: nat, b: nat, k: nat)
    requires a < Pow2(k) && b < Pow2(k)
    ensures Xor(a, b) < Pow2(k) && Xor(Pow2(k) - 1 - a, b) == Pow2(k) - 1 - Xor(a, b)
    decreases k
  {
    XorBound(a, b, k);
    if k > 0 {
      var p := Pow2(k - 1);
      XorNot(a / 2, b / 2, k - 1);
      NotHalf(a, p);
      XorStep(a, b);
      XorStep(2 * p - 1 - a, b);
      NotBit(a % 2, b % 2, Xor(a / 2, b / 2), p);
    }
  }

  lemma NotBit(x: nat, y: nat, z: nat, p: nat)
    requires x < 2 && y < 2 && z < p
    ensures (1 - x + y) % 2 + 2 * (p - 1 - z) == 2 * p - 1 - ((x + y) % 2 + 2 * z)
  {
  }

  lemma {:induction false} XorSwap(a: nat, b: nat)
    ensures Xor(a, b) == Xor(b, a)
    decreases a + b
  {
    if a != 0 || b != 0 { XorSwap(a / 2, b / 2); }
  }

  /** Where the bits of `b` are below those of `a`, or adds. */
  lemma {:induction false} OrAdds(a: nat, b: nat, k: nat)
    requires b < Pow2(k)
    ensures Or(a * Pow2(k), b) == a * Pow2(k) + b
    decreases k
  {
    if k == 0 {
      OrZero(a);
      assert a * 1 == a;
    } else {
      var p := Pow2(k - 1);
      Half(a, 0, p);
      OrAdds(a, b / 2, k - 1);
      assert a * Pow2(k) == 2 * (a * p);
      if a * Pow2(k) == 0 && b == 0 { assert Or(0, 0) == 0; }
    }
  }

  lemma {:induction false} OrZero(a: nat)
    ensures Or(a, 0) == a
    decreases a
  {
    if a > 0 { OrZero(a / 2); }
  }

  // ------------------------------------------------------- words and their halves

  lemma {:induction false} PowSum(a: nat, b: nat)
    ensures Pow2(a + b) == Pow2(a) * Pow2(b)
    decreases a
  {
    if a > 0 {
      PowSum(a - 1, b);
      assert 2 * (Pow2(a - 1) * Pow2(b)) == (2 * Pow2(a - 1)) * Pow2(b);
    }
  }

  lemma Powers()
    ensures Pow2(2) == 4 && Pow2(3) == 8 && Pow2(9) == T9 && Pow2(19) == T19
    ensures Pow2(32) == T32 && Pow2(64) == T64
  {
    assert Pow2(1) == 2 && Pow2(2) == 4 && Pow2(3) == 8;
    PowSum(3, 3);
    PowSum(6, 3);
    PowSum(9, 9);
    PowSum(18, 1);
    PowSum(9, 3);
    PowSum(12, 3);
    PowSum(15, 1);
    PowSum(16, 16);
    PowSum(32, 32);
  }

  function Add32(a: word32, b: word32): word32 { if a + b < T32 then a + b else a + b - T32 }
  function Sub32(a: word32, b: word32): word32 { if a >= b then a - b else a + T32 - b }
  function Not32(a: word32): word32 { T32 - 1 - a }
  function Xor32(a: word32, b: word32): word32 { Powers(); XorBound(a, b, 32); Xor(a, b) }
  function Or32(a: word32, b: word32): word32 { Powers(); OrBound(a, b, 32); Or(a, b) }

  function Add64(a: word64, b: word64): word64 { if a + b < T64 then a + b else a + b - T64 }
  function Sub64(a: word64, b: word64): word64 { if a >= b then a - b else a + T64 - b }
  function Mul64(a: word64, m: nat): word64 { (a * m) % T64 }
  function Not64(a: word64): word64 { T64 - 1 - a }
  function Xor64(a: word64, b: word64): word64 { Powers(); XorBound(a, b, 64); Xor(a, b) }

  /** A shift to the left, given as the power of two it multiplies by. */
  function Shl32(a: word32, p: nat): word32 { (a * p) % T32 }
  function Shl64(a: word64, p: nat): word64 { (a * p) % T64 }

  lemma {:induction false} OrBound(a: nat, b: nat, k: nat)
    requires a < Pow2(k) && b < Pow2(k)
    ensures Or(a, b) < Pow2(k)
    decreases k
  {
    if k > 0 && (a != 0 || b != 0) { OrBound(a / 2, b / 2, k - 1); }
  }

  /** The 64-bit word whose halves are `lo` and `hi`. */
  function W(lo: word32, hi: word32): word64 { hi * T32 + lo }

  function Carry(b: bool): word32 { if b then 1 else 0 }

  /** add64: the carry is found by comparing the sum with an operand. */
  lemma AddHalves(s0: word32, s1: word32, p0: word32, p1: word32)
    ensures var l := Add32(s0, p0);
      W(l, Add32(s1, Add32(p1, Carry(l < p0)))) == Add64(W(s0, s1), W(p0, p1))
  {
  }

  /** sub64 likewise with the borrow. */
  lemma SubHalves(s0: word32, s1: word32, p0: word32, p1: word32)
    ensures W(Sub32(s0, p0), Sub32(s1, Add32(p1, Carry(s0 < p0)))) == Sub64(W(s0, s1), W(p0, p1))
  {
  }

  lemma XorHalves(s0: word32, s1: word32, p0: word32, p1: word32)
    ensures W(Xor32(s0, p0), Xor32(s1, p1)) == Xor64(W(s0, s1), W(p0, p1))
  {
    Powers();
    XorParts(s1, s0, p1, p0, 32);
  }

  lemma Mod32(q: nat, x: nat)
    requires x < T32
    ensures (q * T32 + x) % T32 == x
  {
  }

  lemma Mod64(q: nat, x: nat)
    requires x < T64
    ensures (q * T64 + x) % T64 == x
  {
  }

  lemma MulApart(q: nat, r: nat, m: nat, p: nat)
    ensures (q * m + r) * p == q * (p * m) + r * p
  {
  }

  lemma Dropped(r: nat, p: nat, m: nat)
    requires r < m && p > 0
    ensures r * p < p * m
  {
  }

  /** The bits that a shift to the left keeps: `p` times `m` is the width. */
  lemma Kept32(a: word32, p: nat, m: nat)
    requires p > 0 && m > 0 && p * m == T32
    ensures Shl32(a, p) == (a % m) * p
  {
    Divided(a, m);
    KeptWhole(a, a / m, a % m, m, p, T32);
    Mod32(a / m, (a % m) * p);
  }

  lemma Divided(a: nat, m: nat)
    requires m > 0
    ensures a == a / m * m + a % m && a % m < m
  {
  }

  lemma KeptWhole(a: nat, q: nat, r: nat, m: nat, p: nat, w: nat)
    requires p > 0 && r < m && p * m == w && a == q * m + r
    ensures a * p == q * w + r * p && r * p < w
  {
    KeptParts(q, r, m, p, w);
  }

  /** A value with its quotient and remainder by m, times p. */
  lemma KeptParts(q: nat, r: nat, m: nat, p: nat, w: nat)
    requires p > 0 && r < m && p * m == w
    ensures (q * m + r) * p == q * w + r * p && r * p < w
  {
    MulApart(q, r, m, p);
    Dropped(r, p, m);
  }

  lemma Kept64(a: word64, p: nat, m: nat)
    requires p > 0 && m > 0 && p * m == T64
    ensures Shl64(a, p) == (a % m) * p
  {
    Divided(a, m);
    KeptWhole(a, a / m, a % m, m, p, T64);
    Mod64(a / m, (a % m) * p);
  }

  lemma OrFew(a: nat, b: nat)
    ensures b < 4 ==> Or(a * 4, b) == a * 4 + b
    ensures b < 8 ==> Or(a * 8, b) == a * 8 + b
  {
    Powers();
    if b < 4 { OrAdds(a, b, 2); }
    if b < 8 { OrAdds(a, b, 3); }
  }

  /** A shift left across the halves: what leaves the lower one enters the upper one. */
  lemma ShiftBy4(s0: word32, s1: word32)
    ensures W(Shl32(s0, 4), Or32(Shl32(s1, 4), s0 / 0x4000_0000)) == Shl64(W(s0, s1), 4)
  {
    Kept32(s0, 4, 0x4000_0000);
    Kept32(s1, 4, 0x4000_0000);
    OrFew(s1 % 0x4000_0000, s0 / 0x4000_0000);
    Kept64(W(s0, s1), 4, 0x4000_0000_0000_0000);
    Upper4(s0, s1);
  }

  lemma Upper4(s0: word32, s1: word32)
    ensures (s1 * T32 + s0) % 0x4000_0000_0000_0000 == (s1 % 0x4000_0000) * T32 + s0
    ensures ((s1 % 0x4000_0000) * T32 + s0) * 4 ==
      ((s1 % 0x4000_0000) * 4 + s0 / 0x4000_0000) * T32 + (s0 % 0x4000_0000) * 4
  {
    var q, r := s1 / 0x4000_0000, s1 % 0x4000_0000;
    assert s1 * T32 + s0 == q * 0x4000_0000_0000_0000 + (r * T32 + s0);
    Sum4(s0 / 0x4000_0000, s0 % 0x4000_0000, r);
  }

  lemma Sum4(q0: nat, r0: nat, r1: nat)
    ensures (r1 * T32 + (q0 * 0x4000_0000 + r0)) * 4 == (r1 * 4 + q0) * T32 + r0 * 4
  {
  }

  lemma ShiftBy8(s0: word32, s1: word32)
    ensures W(Shl32(s0, 8), Or32(Shl32(s1, 8), s0 / 0x2000_0000)) == Shl64(W(s0, s1), 8)
  {
    Kept32(s0, 8, 0x2000_0000);
    Kept32(s1, 8, 0x2000_0000);
    OrFew(s1 % 0x2000_0000, s0 / 0x2000_0000);
    Kept64(W(s0, s1), 8, 0x2000_0000_0000_0000);
    Upper8(s0, s1);
  }

  lemma Upper8(s0: word32, s1: word32)
    ensures (s1 * T32 + s0) % 0x2000_0000_0000_0000 == (s1 % 0x2000_0000) * T32 + s0
    ensures ((s1 % 0x2000_0000) * T32 + s0) * 8 ==
      ((s1 % 0x2000_0000) * 8 + s0 / 0x2000_0000) * T32 + (s0 % 0x2000_0000) * 8
  {
    var q, r := s1 / 0x2000_0000, s1 % 0x2000_0000;
    assert s1 * T32 + s0 == q * 0x2000_0000_0000_0000 + (r * T32 + s0);
    Sum8(s0 / 0x2000_0000, s0 % 0x2000_0000, r);
  }

  lemma Sum8(q0: nat, r0: nat, r1: nat)
    ensures (r1 * T32 + (q0 * 0x2000_0000 + r0)) * 8 == (r1 * 8 + q0) * T32 + r0 * 8
  {
  }

  lemma By5(v: word64)
    ensures Add64(v, Shl64(v, 4)) == Mul64(v, 5)
  {
    var q, r := (v * 4) / T64, (v * 4) % T64;
    if v + r < T64 { Mod64(q, v + r); } else { Mod64(q + 1, v + r - T64); }
  }

  lemma By7(v: word64)
    ensures Sub64(Shl64(v, 8), v) == Mul64(v, 7)
  {
    var q, r := (v * 8) / T64, (v * 8) % T64;
    if r >= v { Mod64(q, r - v); } else { Mod64(q - 1, r + T64 - v); }
  }

  lemma By9(v: word64)
    ensures Add64(v, Shl64(v, 8)) == Mul64(v, 9)
  {
    var q, r := (v * 8) / T64, (v * 8) % T64;
    if v + r < T64 { Mod64(q, v + r); } else { Mod64(q + 1, v + r - T64); }
  }

  /** Complementing either side of an exclusive or is the same. */
  lemma NotEither(q: word32, y: word32)
    ensures Xor32(Not32(q), y) == Xor32(q, Not32(y))
  {
    Powers();
    XorNot(q, y, 32);
    XorSwap(q, y);
    XorNot(y, q, 32);
    XorSwap(Not32(y), q);
  }

  /** The complemented shift left by 19 of the key schedule. */
  lemma NotShiftLeft(p0: word32, p1: word32, q0: word32, q1: word32)
    ensures W(Xor32(q0, Shl32(Not32(p0), T19)), Xor32(Not32(q1), Or32(Shl32(p1, T19), p0 / T13)))
      == Xor64(W(q0, q1), Shl64(Not64(W(p0, p1)), T19))
  {
    var y := Or32(Shl32(p1, T19), p0 / T13);
    NotEither(q1, y);
    XorHalves(q0, q1, Shl32(Not32(p0), T19), Not32(y));
    LeftHalves(p0, p1);
  }

  lemma LeftHalves(p0: word32, p1: word32)
    ensures W(Shl32(Not32(p0), T19), Not32(Or32(Shl32(p1, T19), p0 / T13))) == Shl64(Not64(W(p0, p1)), T19)
  {
    Powers();
    Kept32(Not32(p0), T19, T13);
    Kept32(p1, T19, T13);
    OrAdds(p1 % T13, p0 / T13, 19);
    Kept64(Not64(W(p0, p1)), T19, T13 * T32);
    UpperNot(p0, p1);
  }

  lemma UpperNot(p0: word32, p1: word32)
    ensures Not64(W(p0, p1)) % (T13 * T32) == (T13 - 1 - p1 % T13) * T32 + (T32 - 1 - p0)
    ensures Not32(p0) % T13 == T13 - 1 - p0 % T13
  {
    NotParts(p1 / T13, p1 % T13, p0);
    NotLow(p0 / T13, p0 % T13);
  }

  lemma NotParts(q: nat, r: nat, p0: word32)
    requires q < T19 && r < T13
    ensures Not64(W(p0, q * T13 + r)) % (T13 * T32) == (T13 - 1 - r) * T32 + (T32 - 1 - p0)
  {
    assert Not64(W(p0, q * T13 + r)) == (T19 - 1 - q) * (T13 * T32) + ((T13 - 1 - r) * T32 + (T32 - 1 - p0));
  }

  lemma NotLow(q: nat, r: nat)
    requires q < T19 && r < T13
    ensures Not32(q * T13 + r) % T13 == T13 - 1 - r
  {
    assert Not32(q * T13 + r) == (T19 - 1 - q) * T13 + (T13 - 1 - r);
  }

  /** The complemented shift right by 23. */
  lemma NotShiftRight(p0: word32, p1: word32, q0: word32, q1: word32)
    ensures W(Xor32(Not32(q0), Or32(p0 / T23, Shl32(p1, T9))), Xor32(q1, Not32(p1) / T23))
      == Xor64(W(q0, q1), Not64(W(p0, p1)) / T23)
  {
    var y := Or32(p0 / T23, Shl32(p1, T9));
    NotEither(q0, y);
    XorHalves(q0, q1, Not32(y), Not32(p1) / T23);
    RightHalves(p0, p1);
  }

  lemma RightHalves(p0: word32, p1: word32)
    ensures W(Not32(Or32(p0 / T23, Shl32(p1, T9))), Not32(p1) / T23) == Not64(W(p0, p1)) / T23
  {
    Powers();
    Kept32(p1, T9, T23);
    OrSwap(p0 / T23, Shl32(p1, T9));
    OrAdds(p1 % T23, p0 / T23, 9);
    LowerNot(p0, p1);
  }

  lemma LowerNot(p0: word32, p1: word32)
    ensures Not32(p1) / T23 == T9 - 1 - p1 / T23
    ensures Not64(W(p0, p1)) / T23 == (T9 - 1 - p1 / T23) * T32 + (T32 - 1 - ((p1 % T23) * T9 + p0 / T23))
  {
    var q, r, u, v := p1 / T23, p1 % T23, p0 / T23, p0 % T23;
    assert Not64(W(p0, p1)) == ((T9 - 1 - q) * T32 + (T32 - 1 - (r * T9 + u))) * T23 + (T23 - 1 - v);
  }

  lemma {:induction false} OrSwap(a: nat, b: nat)
    ensures Or(a, b) == Or(b, a)
    decreases a + b
  {
    if a != 0 || b != 0 { OrSwap(a / 2, b / 2); }
  }

  // ------------------------------------------------------- Tiger on 64-bit words

  /** The entries of one of the four tables, by byte. */
  type Table = nat -> word64
  datatype Boxes = Boxes(t1: Table, t2: Table, t3: Table, t4: Table)
  datatype Regs = Regs(a: word64, b: word64, c: word64)

  /** The byte of `c` at the bit position whose power of two is `p`. */
  function ByteOf(c: nat, p: nat): nat requires p > 0 { c / p % 256 }

  function X4(a: word64, b: word64, c: word64, d: word64): word64 { Xor64(Xor64(Xor64(a, b), c), d) }

  /** What a round subtracts from a and adds to b. */
  function Even(t: Boxes, c: word64): word64 {
    X4(t.t1(ByteOf(c, 1)), t.t2(ByteOf(c, 0x1_0000)), t.t3(ByteOf(c, T32)), t.t4(ByteOf(c, 0x1_0000 * T32)))
  }
  function Odd(t: Boxes, c: word64): word64 {
    X4(t.t4(ByteOf(c, 0x100)), t.t3(ByteOf(c, 0x100_0000)), t.t2(ByteOf(c, 0x100 * T32)),
        t.t1(ByteOf(c, 0x100_0000 * T32)))
  }

  function Round(r: Regs, x: word64, mul: nat, t: Boxes): Regs {
    var c := Xor64(r.c, x);
    Regs(Sub64(r.a, Even(t, c)), Mul64(Add64(r.b, Odd(t, c)), mul), c)
  }

  /** Eight rounds, the registers taking turns. */
  function Pass(f: (Regs, word64) -> Regs, r: Regs, x: seq<word64>): Regs
    requires |x| == 8
  {
    var s1 := f(r, x[0]);
    var s2 := f(Regs(s1.b, s1.c, s1.a), x[1]);
    var s3 := f(Regs(s2.b, s2.c, s2.a), x[2]);
    var s4 := f(Regs(s3.b, s3.c, s3.a), x[3]);
    var s5 := f(Regs(s4.b, s4.c, s4.a), x[4]);
    var s6 := f(Regs(s5.b, s5.c, s5.a), x[5]);
    var s7 := f(Regs(s6.b, s6.c, s6.a), x[6]);
    var s8 := f(Regs(s7.b, s7.c, s7.a), x[7]);
    Regs(s8.c, s8.a, s8.b)
  }

  function Rounds(mul: nat, t: Boxes): (Regs, word64) -> Regs { (r: Regs, x: word64) => Round(r, x, mul, t) }

  // the five kinds of lines of the key schedule, on the word they change
  function XorW(y: seq<word64>, k: nat, j: nat): (z: seq<word64>)
    requires k < |y| && j < |y|
    ensures |z| == |y|
  {
    y[k := Xor64(y[k], y[j])]
  }
  function AddW(y: seq<word64>, k: nat, j: nat): (z: seq<word64>)
    requires k < |y| && j < |y|
    ensures |z| == |y|
  {
    y[k := Add64(y[k], y[j])]
  }
  function SubC(y: seq<word64>, k: nat, j: nat, c: word64): (z: seq<word64>)
    requires k < |y| && j < |y|
    ensures |z| == |y|
  {
    y[k := Sub64(y[k], Xor64(y[j], c))]
  }
  function SubL(y: seq<word64>, k: nat, j: nat, l: nat): (z: seq<word64>)
    requires k < |y| && j < |y| && l < |y|
    ensures |z| == |y|
  {
    y[k := Sub64(y[k], Xor64(y[j], Shl64(Not64(y[l]), T19)))]
  }
  function SubR(y: seq<word64>, k: nat, j: nat, l: nat): (z: seq<word64>)
    requires k < |y| && j < |y| && l < |y|
    ensures |z| == |y|
  {
    y[k := Sub64(y[k], Xor64(y[j], Not64(y[l]) / T23))]
  }

  function Schedule1(x: seq<word64>): (y: seq<word64>)
    requires |x| == 8
    ensures |y| == 8
  {
    XorW(SubR(AddW(XorW(SubL(AddW(XorW(SubC(x, 0, 7, 0xA5A5A5A5A5A5A5A5), 1, 0), 2, 1), 3, 2, 1), 4, 3), 5, 4), 6, 5,
        4), 7, 6)
  }
  function Schedule2(x: seq<word64>): (y: seq<word64>)
    requires |x| == 8
    ensures |y| == 8
  {
    SubC(AddW(XorW(SubR(AddW(XorW(SubL(AddW(x, 0, 7), 1, 0, 7), 2, 1), 3, 2), 4, 3, 2), 5, 4), 6, 5), 7, 6,
        0x0123456789ABCDEF)
  }
  function Schedule(x: seq<word64>): (y: seq<word64>)
    requires |x| == 8
    ensures |y| == 8
  {
    Schedule2(Schedule1(x))
  }

  function MulOf(pass: nat): nat { if pass == 0 then 5 else if pass == 1 then 7 else 9 }

  /** The passes by number, and the key schedule, as functions on their own. */
  type Passes = (nat, Regs, seq<word64>) -> Regs
  type Scheduler = seq<word64> -> seq<word64>

  function PassesOf(t: Boxes): Passes {
    (n: nat, r: Regs, x: seq<word64>) => if |x| == 8 then Pass(Rounds(MulOf(n), t), r, x) else r
  }
  function Scheduling(): Scheduler {
    (x: seq<word64>) => if |x| == 8 then Schedule(x) else x
  }

  function Feed(s: Regs, r: Regs): Regs { Regs(Xor64(s.a, r.a), Sub64(s.b, r.b), Add64(s.c, r.c)) }

  /** Three passes over (a, b, c), (c, a, b) and (b, c, a). */
  function ThreePasses(pass: Passes, next: Scheduler, r: Regs, x: seq<word64>): Regs {
    var p := pass(0, r, x);                                     // a, b, c
    var q := pass(1, Regs(p.c, p.a, p.b), next(x));             // c, a, b
    var s := pass(2, Regs(q.c, q.a, q.b), next(next(x)));       // b, c, a
    Regs(s.c, s.a, s.b)
  }

  /** The compression function: the passes and the feed forward. */
  function Compress(r: Regs, x: seq<word64>, t: Boxes): Regs {
    Feed(ThreePasses(PassesOf(t), Scheduling(), r, x), r)
  }

  // --------------------------------------------------- the macros, on half words

  /** The tables as they are stored, an entry being two half words. */
  datatype HalfTable = HalfTable(lo: nat -> word32, hi: nat -> word32)
  datatype HalfBoxes = HalfBoxes(t1: HalfTable, t2: HalfTable, t3: HalfTable, t4: HalfTable)

  function Whole(t: HalfTable): Table { i => W(t.lo(i), t.hi(i)) }
  function WholeBoxes(t: HalfBoxes): Boxes { Boxes(Whole(t.t1), Whole(t.t2), Whole(t.t3), Whole(t.t4)) }

  /** The place values of the bytes of a half word. */
  predicate IsPlace(p: nat) { p == 1 || p == 0x100 || p == 0x1_0000 || p == 0x100_0000 }

  lemma LowOf(q: nat, r: nat, u: nat, p: nat)
    requires IsPlace(p) && r < p
    ensures ((u * 256 + q) * p + r) / p == u * 256 + q && (u * 256 + q) % 256 == q % 256
  {
    var x := u * 256 + q;
    if p == 1 { assert (x * 1 + r) / 1 == x; }
    else if p == 0x100 { assert (x * 0x100 + r) / 0x100 == x; }
    else if p == 0x1_0000 { assert (x * 0x1_0000 + r) / 0x1_0000 == x; }
    else { assert (x * 0x100_0000 + r) / 0x100_0000 == x; }
  }

  /** Each byte of a word is a byte of its lower half or of its upper one. */
  lemma LowByte(c0: word32, c1: word32, p: nat)
    requires IsPlace(p)
    ensures ByteOf(W(c0, c1), p) == ByteOf(c0, p)
  {
    if p == 1 {
      LowOf(c0, 0, c1 * 0x100_0000, 1);
    } else if p == 0x100 {
      LowOf(c0 / 0x100, c0 % 0x100, c1 * 0x1_0000, 0x100);
    } else if p == 0x1_0000 {
      LowOf(c0 / 0x1_0000, c0 % 0x1_0000, c1 * 0x100, 0x1_0000);
    } else {
      LowOf(c0 / 0x100_0000, c0 % 0x100_0000, c1, 0x100_0000);
    }
  }

  lemma HighByte(c0: word32, c1: word32, p: nat)
    requires IsPlace(p)
    ensures ByteOf(W(c0, c1), p * T32) == ByteOf(c1, p)
  {
    if p == 1 {
      assert W(c0, c1) == c1 * T32 + c0;
    } else if p == 0x100 {
      assert W(c0, c1) == (c1 / 0x100) * (0x100 * T32) + ((c1 % 0x100) * T32 + c0);
    } else if p == 0x1_0000 {
      assert W(c0, c1) == (c1 / 0x1_0000) * (0x1_0000 * T32) + ((c1 % 0x1_0000) * T32 + c0);
    } else {
      assert W(c0, c1) == (c1 / 0x100_0000) * (0x100_0000 * T32) + ((c1 % 0x100_0000) * T32 + c0);
    }
  }

  function X4h(a: word32, b: word32, c: word32, d: word32): word32 { Xor32(Xor32(Xor32(a, b), c), d) }

  lemma X4Halves(a0: word32, a1: word32, b0: word32, b1: word32, c0: word32, c1: word32, d0: word32, d1: word32)
    ensures W(X4h(a0, b0, c0, d0), X4h(a1, b1, c1, d1)) == X4(W(a0, a1), W(b0, b1), W(c0, c1), W(d0, d1))
  {
    XorHalves(a0, a1, b0, b1);
    XorHalves(Xor32(a0, b0), Xor32(a1, b1), c0, c1);
    XorHalves(Xor32(Xor32(a0, b0), c0), Xor32(Xor32(a1, b1), c1), d0, d1);
  }

  /** Pairs of half words in an array: pair k takes up items 2k and 2k + 1. */
  ghost function Pair(w: seq<word32>, k: nat): word64
    requires 2 * k + 1 < |w|
  {
    W(w[2 * k], w[2 * k + 1])
  }

  /** `v` is `w` but for pair k, which has become `x`. */
  ghost predicate Puts(w: seq<word32>, v: seq<word32>, k: nat, x: word64) {
    && |v| == |w| && 2 * k + 1 < |w| && Pair(v, k) == x
    && forall i {:trigger v[i]} :: 0 <= i < |w| && i / 2 != k ==> v[i] == w[i]
  }

  method Sub64At(w: array<word32>, k: nat, p0: word32, p1: word32)
    requires 2 * k + 1 < w.Length
    modifies w
    ensures Puts(old(w[..]), w[..], k, Sub64(Pair(old(w[..]), k), W(p0, p1)))
  {
    SubHalves(w[2 * k], w[2 * k + 1], p0, p1);
    var tcarry := if w[2 * k] < p0 then 1 else 0;
    w[2 * k] := Sub32(w[2 * k], p0);
    w[2 * k + 1] := Sub32(w[2 * k + 1], Add32(p1, tcarry));
  }

  method Add64At(w: array<word32>, k: nat, p0: word32, p1: word32)
    requires 2 * k + 1 < w.Length
    modifies w
    ensures Puts(old(w[..]), w[..], k, Add64(Pair(old(w[..]), k), W(p0, p1)))
  {
    AddHalves(w[2 * k], w[2 * k + 1], p0, p1);
    w[2 * k] := Add32(w[2 * k], p0);
    var tcarry := if w[2 * k] < p0 then 1 else 0;
    w[2 * k + 1] := Add32(w[2 * k + 1], Add32(p1, tcarry));
  }

  method Xor64At(w: array<word32>, k: nat, p0: word32, p1: word32)
    requires 2 * k + 1 < w.Length
    modifies w
    ensures Puts(old(w[..]), w[..], k, Xor64(Pair(old(w[..]), k), W(p0, p1)))
  {
    XorHalves(w[2 * k], w[2 * k + 1], p0, p1);
    w[2 * k] := Xor32(w[2 * k], p0);
    w[2 * k + 1] := Xor32(w[2 * k + 1], p1);
  }

  method MulAt(w: array<word32>, k: nat, mul: nat)
    requires 2 * k + 1 < w.Length && (mul == 5 || mul == 7 || mul == 9)
    modifies w
    ensures Puts(old(w[..]), w[..], k, Mul64(Pair(old(w[..]), k), mul))
  {
    var s0, s1 := w[2 * k], w[2 * k + 1];
    if mul == 5 {
      ShiftBy4(s0, s1);
      By5(W(s0, s1));
      Add64At(w, k, Shl32(s0, 4), Or32(Shl32(s1, 4), s0 / 0x4000_0000));
    } else if mul == 7 {
      ShiftBy8(s0, s1);
      By7(W(s0, s1));
      var tempt0, tempt1 := Shl32(s0, 8), Or32(Shl32(s1, 8), s0 / 0x2000_0000);
      SubHalves(tempt0, tempt1, s0, s1);
      var tcarry := if tempt0 < s0 then 1 else 0;
      w[2 * k], w[2 * k + 1] := Sub32(tempt0, s0), Sub32(tempt1, Add32(s1, tcarry));
    } else {
      ShiftBy8(s0, s1);
      By9(W(s0, s1));
      Add64At(w, k, Shl32(s0, 8), Or32(Shl32(s1, 8), s0 / 0x2000_0000));
    }
  }

  /** The three registers in the order in which they play a, b and c. */
  ghost function View(w: seq<word32>, ia: nat, ib: nat, ic: nat): Regs
    requires |w| == 6 && ia < 3 && ib < 3 && ic < 3
  {
    Regs(Pair(w, ia), Pair(w, ib), Pair(w, ic))
  }

  predicate Unlike(ia: nat, ib: nat, ic: nat) { ia < 3 && ib < 3 && ic < 3 && ia != ib && ib != ic && ia != ic }

  lemma PutsOther(w: seq<word32>, v: seq<word32>, k: nat, x: word64, j: nat)
    requires Puts(w, v, k, x) && 2 * j + 1 < |w| && j != k
    ensures Pair(v, j) == Pair(w, j)
  {
    assert (2 * j) / 2 == j && (2 * j + 1) / 2 == j;
    assert v[2 * j] == w[2 * j] && v[2 * j + 1] == w[2 * j + 1];
  }

  function Even0(t: HalfBoxes, c0: word32, c1: word32): word32 {
    X4h(t.t1.lo(ByteOf(c0, 1)), t.t2.lo(ByteOf(c0, 0x1_0000)), t.t3.lo(ByteOf(c1, 1)), t.t4.lo(ByteOf(c1, 0x1_0000)))
  }
  function Even1(t: HalfBoxes, c0: word32, c1: word32): word32 {
    X4h(t.t1.hi(ByteOf(c0, 1)), t.t2.hi(ByteOf(c0, 0x1_0000)), t.t3.hi(ByteOf(c1, 1)), t.t4.hi(ByteOf(c1, 0x1_0000)))
  }
  function Odd0(t: HalfBoxes, c0: word32, c1: word32): word32 {
    X4h(t.t4.lo(ByteOf(c0, 0x100)), t.t3.lo(ByteOf(c0, 0x100_0000)), t.t2.lo(ByteOf(c1, 0x100)),
        t.t1.lo(ByteOf(c1, 0x100_0000)))
  }
  function Odd1(t: HalfBoxes, c0: word32, c1: word32): word32 {
    X4h(t.t4.hi(ByteOf(c0, 0x100)), t.t3.hi(ByteOf(c0, 0x100_0000)), t.t2.hi(ByteOf(c1, 0x100)),
        t.t1.hi(ByteOf(c1, 0x100_0000)))
  }

  lemma EvenHalves(t: HalfBoxes, c0: word32, c1: word32)
    ensures W(Even0(t, c0, c1), Even1(t, c0, c1)) == Even(WholeBoxes(t), W(c0, c1))
  {
    LowByte(c0, c1, 1); LowByte(c0, c1, 0x1_0000); HighByte(c0, c1, 1); HighByte(c0, c1, 0x1_0000);
    X4Halves(t.t1.lo(ByteOf(c0, 1)), t.t1.hi(ByteOf(c0, 1)), t.t2.lo(ByteOf(c0, 0x1_0000)),
        t.t2.hi(ByteOf(c0, 0x1_0000)),
             t.t3.lo(ByteOf(c1, 1)), t.t3.hi(ByteOf(c1, 1)), t.t4.lo(ByteOf(c1, 0x1_0000)),
                 t.t4.hi(ByteOf(c1, 0x1_0000)));
  }

  lemma OddHalves(t: HalfBoxes, c0: word32, c1: word32)
    ensures W(Odd0(t, c0, c1), Odd1(t, c0, c1)) == Odd(WholeBoxes(t), W(c0, c1))
  {
    LowByte(c0, c1, 0x100); LowByte(c0, c1, 0x100_0000); HighByte(c0, c1, 0x100); HighByte(c0, c1, 0x100_0000);
    X4Halves(t.t4.lo(ByteOf(c0, 0x100)), t.t4.hi(ByteOf(c0, 0x100)), t.t3.lo(ByteOf(c0, 0x100_0000)),
        t.t3.hi(ByteOf(c0, 0x100_0000)),
             t.t2.lo(ByteOf(c1, 0x100)), t.t2.hi(ByteOf(c1, 0x100)), t.t1.lo(ByteOf(c1, 0x100_0000)),
                 t.t1.hi(ByteOf(c1, 0x100_0000)));
  }

  /** The round macro, with the registers that play a, b and c. */
  method RoundAt(w: array<word32>, ia: nat, ib: nat, ic: nat, x0: word32, x1: word32, mul: nat, t: HalfBoxes)
    requires w.Length == 6 && Unlike(ia, ib, ic) && (mul == 5 || mul == 7 || mul == 9)
    modifies w
    ensures View(w[..], ia, ib, ic) == Round(View(old(w[..]), ia, ib, ic), W(x0, x1), mul, WholeBoxes(t))
  {
    ghost var w0 := w[..];
    Xor64At(w, ic, x0, x1);
    ghost var w1, c := w[..], Pair(w[..], ic);
    PutsOther(w0, w1, ic, c, ia); PutsOther(w0, w1, ic, c, ib);
    var c0, c1 := w[2 * ic], w[2 * ic + 1];
    EvenHalves(t, c0, c1);
    OddHalves(t, c0, c1);
    Sub64At(w, ia, Even0(t, c0, c1), Even1(t, c0, c1));
    ghost var w2, a := w[..], Pair(w[..], ia);
    PutsOther(w1, w2, ia, a, ib); PutsOther(w1, w2, ia, a, ic);
    AddMul(w, ib, Odd0(t, c0, c1), Odd1(t, c0, c1), mul);
    PutsOther(w2, w[..], ib, Pair(w[..], ib), ia); PutsOther(w2, w[..], ib, Pair(w[..], ib), ic);
  }

  method AddMul(w: array<word32>, k: nat, p0: word32, p1: word32, mul: nat)
    requires 2 * k + 1 < w.Length && (mul == 5 || mul == 7 || mul == 9)
    modifies w
    ensures Puts(old(w[..]), w[..], k, Mul64(Add64(Pair(old(w[..]), k), W(p0, p1)), mul))
  {
    Add64At(w, k, p0, p1);
    MulAt(w, k, mul);
  }

  ghost function Words(x: seq<word32>): (y: seq<word64>)
    requires |x| == 16
    ensures |y| == 8
  {
    [Pair(x, 0), Pair(x, 1), Pair(x, 2), Pair(x, 3), Pair(x, 4), Pair(x, 5), Pair(x, 6), Pair(x, 7)]
  }

  /** The pass macro: eight rounds, the registers taking turns. */
  method PassAt(w: array<word32>, x: array<word32>, mul: nat, t: HalfBoxes)
    requires w.Length == 6 && x.Length == 16 && w != x && (mul == 5 || mul == 7 || mul == 9)
    modifies w
    ensures View(w[..], 0, 1, 2) == Pass(Rounds(mul, WholeBoxes(t)), View(old(w[..]), 0, 1, 2), Words(x[..]))
  {
    RoundAt(w, 0, 1, 2, x[0], x[1], mul, t);
    RoundAt(w, 1, 2, 0, x[2], x[3], mul, t);
    RoundAt(w, 2, 0, 1, x[4], x[5], mul, t);
    RoundAt(w, 0, 1, 2, x[6], x[7], mul, t);
    RoundAt(w, 1, 2, 0, x[8], x[9], mul, t);
    RoundAt(w, 2, 0, 1, x[10], x[11], mul, t);
    RoundAt(w, 0, 1, 2, x[12], x[13], mul, t);
    RoundAt(w, 1, 2, 0, x[14], x[15], mul, t);
  }

  lemma WordsPuts(w: seq<word32>, v: seq<word32>, k: nat, x: word64)
    requires |w| == 16 && k < 8 && Puts(w, v, k, x)
    ensures Words(v) == Words(w)[k := x]
  {
    forall j | 0 <= j < 8 ensures Words(v)[j] == Words(w)[k := x][j] {
      if j != k { PutsOther(w, v, k, x, j); }
    }
  }

  method XorWord(x: array<word32>, k: nat, j: nat)
    requires x.Length == 16 && k < 8 && j < 8
    modifies x
    ensures Words(x[..]) == XorW(Words(old(x[..])), k, j)
  {
    Xor64At(x, k, x[2 * j], x[2 * j + 1]);
    WordsPuts(old(x[..]), x[..], k, Pair(x[..], k));
  }

  method AddWord(x: array<word32>, k: nat, j: nat)
    requires x.Length == 16 && k < 8 && j < 8
    modifies x
    ensures Words(x[..]) == AddW(Words(old(x[..])), k, j)
  {
    Add64At(x, k, x[2 * j], x[2 * j + 1]);
    WordsPuts(old(x[..]), x[..], k, Pair(x[..], k));
  }

  /** Subtract a word whose halves are known. */
  method SubWord(x: array<word32>, k: nat, u0: word32, u1: word32, ghost u: word64)
    requires x.Length == 16 && k < 8 && W(u0, u1) == u
    modifies x
    ensures Words(x[..]) == (var y := Words(old(x[..])); y[k := Sub64(y[k], u)])
  {
    Sub64At(x, k, u0, u1);
    WordsPuts(old(x[..]), x[..], k, Pair(x[..], k));
  }

  method SubConst(x: array<word32>, k: nat, j: nat, c0: word32, c1: word32)
    requires x.Length == 16 && k < 8 && j < 8
    modifies x
    ensures Words(x[..]) == SubC(Words(old(x[..])), k, j, W(c0, c1))
  {
    var q0, q1 := x[2 * j], x[2 * j + 1];
    XorHalves(q0, q1, c0, c1);
    SubWord(x, k, Xor32(q0, c0), Xor32(q1, c1), Xor64(W(q0, q1), W(c0, c1)));
  }

  method SubLeft(x: array<word32>, k: nat, j: nat, l: nat)
    requires x.Length == 16 && k < 8 && j < 8 && l < 8
    modifies x
    ensures Words(x[..]) == SubL(Words(old(x[..])), k, j, l)
  {
    var p0, p1, q0, q1 := x[2 * l], x[2 * l + 1], x[2 * j], x[2 * j + 1];
    NotShiftLeft(p0, p1, q0, q1);
    SubWord(x, k, Xor32(q0, Shl32(Not32(p0), T19)), Xor32(Not32(q1), Or32(Shl32(p1, T19), p0 / T13)),
            Xor64(W(q0, q1), Shl64(Not64(W(p0, p1)), T19)));
  }

  method SubRight(x: array<word32>, k: nat, j: nat, l: nat)
    requires x.Length == 16 && k < 8 && j < 8 && l < 8
    modifies x
    ensures Words(x[..]) == SubR(Words(old(x[..])), k, j, l)
  {
    var p0, p1, q0, q1 := x[2 * l], x[2 * l + 1], x[2 * j], x[2 * j + 1];
    NotShiftRight(p0, p1, q0, q1);
    SubWord(x, k, Xor32(Not32(q0), Or32(p0 / T23, Shl32(p1, T9))), Xor32(q1, Not32(p1) / T23),
            Xor64(W(q0, q1), Not64(W(p0, p1)) / T23));
  }

  /** The key_schedule macro. */
  method KeySchedule(x: array<word32>)
    requires x.Length == 16
    modifies x
    ensures Words(x[..]) == Schedule(Words(old(x[..])))
  {
    KeySchedule1(x);
    KeySchedule2(x);
  }

  method KeySchedule1(x: array<word32>)
    requires x.Length == 16
    modifies x
    ensures Words(x[..]) == Schedule1(Words(old(x[..])))
  {
    assert W(0xA5A5A5A5, 0xA5A5A5A5) == 0xA5A5A5A5A5A5A5A5;
    SubConst(x, 0, 7, 0xA5A5A5A5, 0xA5A5A5A5);
    XorWord(x, 1, 0);
    AddWord(x, 2, 1);
    SubLeft(x, 3, 2, 1);
    XorWord(x, 4, 3);
    AddWord(x, 5, 4);
    SubRight(x, 6, 5, 4);
    XorWord(x, 7, 6);
  }

  method KeySchedule2(x: array<word32>)
    requires x.Length == 16
    modifies x
    ensures Words(x[..]) == Schedule2(Words(old(x[..])))
  {
    assert W(0x89ABCDEF, 0x01234567) == 0x0123456789ABCDEF;
    AddWord(x, 0, 7);
    SubLeft(x, 1, 0, 7);
    XorWord(x, 2, 1);
    AddWord(x, 3, 2);
    SubRight(x, 4, 3, 2);
    XorWord(x, 5, 4);
    AddWord(x, 6, 5);
    SubConst(x, 7, 6, 0x89ABCDEF, 0x01234567);
  }

  const PASSES: nat := 3

  /** Registers and words after one more round of the loop, which moves the registers on after the pass. */
  function OneRound(pass: Passes, next: Scheduler, s: (Regs, seq<word64>), n: nat): (Regs, seq<word64>) {
    var y := if n == 0 then s.1 else next(s.1);
    var q := pass(n, s.0, y);
    (Regs(q.c, q.a, q.b), y)
  }

  function Looped(pass: Passes, next: Scheduler, s: (Regs, seq<word64>), n: nat): (Regs, seq<word64>) {
    if n == 0 then s else OneRound(pass, next, Looped(pass, next, s, n - 1), n - 1)
  }

  /** Three times round the loop every register is back in its place, and the three passes are done. */
  lemma ThreeTimes(pass: Passes, next: Scheduler, r: Regs, x: seq<word64>)
    ensures Looped(pass, next, (r, x), PASSES).0 == ThreePasses(pass, next, r, x)
  {
    var s := (r, x);
    assert Looped(pass, next, s, 1) == OneRound(pass, next, s, 0);
    assert Looped(pass, next, s, 2) == OneRound(pass, next, OneRound(pass, next, s, 0), 1);
  }

  /** Registers and words as they stand in the arrays. */
  ghost function Now(w: array<word32>, x: array<word32>): (Regs, seq<word64>)
    requires w.Length == 6 && x.Length == 16
    reads w, x
  {
    (View(w[..], 0, 1, 2), Words(x[..]))
  }

  /** One round of the loop: the key schedule but for the first pass, the pass, and the registers moved on. */
  method LoopOne(w: array<word32>, x: array<word32>, n: nat, t: HalfBoxes)
    requires w.Length == 6 && x.Length == 16 && w != x
    modifies w, x
    ensures Now(w, x) == OneRound(PassesOf(WholeBoxes(t)), Scheduling(), old(Now(w, x)), n)
  {
    if n != 0 { KeySchedule(x); }
    PassAt(w, x, MulOf(n), t);
    var tmpa := w[0]; w[0] := w[4]; w[4] := w[2]; w[2] := tmpa;
    tmpa := w[1]; w[1] := w[5]; w[5] := w[3]; w[3] := tmpa;
  }

  /** The compression of a block of 16 half words into the state of 6. */
  method TigerCompress(str: array<word32>, state: array<word32>, t: HalfBoxes)
    requires str.Length == 16 && state.Length == 6
    modifies state
    ensures View(state[..], 0, 1, 2) == Compress(View(old(state[..]), 0, 1, 2), Words(old(str[..])), WholeBoxes(t))
  {
    var w := Copy(state);
    var x := Copy(str);
    Loop(w, x, t, PASSES, Now(w, x));
    ThreeTimes(PassesOf(WholeBoxes(t)), Scheduling(), View(old(state[..]), 0, 1, 2), Words(old(str[..])));
    Feedforward(w, state);
    StoreState(w, state);
  }

  method StoreState(w: array<word32>, state: array<word32>)
    requires w.Length == 6 && state.Length == 6 && w != state
    modifies state
    ensures state[..] == w[..]
  {
    var i := 0;
    while i < 6
      invariant i <= 6 && state[..i] == w[..i]
    {
      state[i] := w[i];
      i := i + 1;
    }
    assert state[..] == state[..6] && w[..] == w[..6];
  }

  method Copy(a: array<word32>) returns (b: array<word32>)
    ensures fresh(b) && b.Length == a.Length && b[..] == a[..]
  {
    b := new word32[a.Length](_ => 0);
    var i := 0;
    while i < a.Length
      invariant i <= a.Length && b[..i] == a[..i]
    {
      b[i] := a[i];
      i := i + 1;
    }
    assert b[..] == b[..i] && a[..] == a[..i];
  }

  /** The state of the loop after n rounds, in the form the loop carries from round to round. */
  ghost predicate At(s: (Regs, seq<word64>), t: HalfBoxes, n: nat, now: (Regs, seq<word64>)) {
    now == Looped(PassesOf(WholeBoxes(t)), Scheduling(), s, n)
  }

  method LoopNext(w: array<word32>, x: array<word32>, n: nat, t: HalfBoxes, ghost s: (Regs, seq<word64>))
    requires w.Length == 6 && x.Length == 16 && w != x
    requires At(s, t, n, Now(w, x))
    modifies w, x
    ensures At(s, t, n + 1, Now(w, x))
  {
    LoopOne(w, x, n, t);
  }

  method Loop(w: array<word32>, x: array<word32>, t: HalfBoxes, passes: nat, ghost s: (Regs, seq<word64>))
    requires w.Length == 6 && x.Length == 16 && w != x
    requires At(s, t, 0, Now(w, x))
    modifies w, x
    ensures At(s, t, passes, Now(w, x))
  {
    var n := 0;
    while n < passes
      invariant n <= passes && At(s, t, n, Now(w, x))
    {
      LoopNext(w, x, n, t, s);
      n := n + 1;
    }
  }

  /** The feedforward macro, with the saved registers in `state`. */
  method Feedforward(w: array<word32>, state: array<word32>)
    requires w.Length == 6 && state.Length == 6 && w != state
    modifies w
    ensures View(w[..], 0, 1, 2) == Feed(View(old(w[..]), 0, 1, 2), View(state[..], 0, 1, 2))
  {
    ghost var w0 := w[..];
    Xor64At(w, 0, state[0], state[1]);
    ghost var w1 := w[..];
    PutsOther(w0, w1, 0, Pair(w1, 0), 1); PutsOther(w0, w1, 0, Pair(w1, 0), 2);
    Sub64At(w, 1, state[2], state[3]);
    ghost var w2 := w[..];
    PutsOther(w1, w2, 1, Pair(w2, 1), 0); PutsOther(w1, w2, 1, Pair(w2, 1), 2);
    Add64At(w, 2, state[4], state[5]);
    PutsOther(w2, w[..], 2, Pair(w[..], 2), 0); PutsOther(w2, w[..], 2, Pair(w[..], 2), 1);
  }
}
