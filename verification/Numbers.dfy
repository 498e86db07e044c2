/**
 * Fixed-point numbers: 64-bit integers with some digits behind the point, added and compared after
 * scaling to the same number of digits (server/hb/int.c:74-79, 328-449).
 */
module Numbers {
  import opened Options

  const TWO63: int := 0x8000_0000_0000_0000
  const TWO64: int := 0x1_0000_0000_0000_0000
  const DECI_MAX: nat := 18

  predicate Long(n: int) { -TWO63 <= n < TWO63 }

  /** A result of 64-bit arithmetic. */
  function Wrap(n: int): (r: int)
    ensures Long(r)
  {
    (n + TWO63) % TWO64 - TWO63
  }

  function Sign(n: int): int { if n > 0 then 1 else if n < 0 then -1 else 0 }

  datatype Number = Number(n: int, deci: nat)

  predicate Held(x: Number) { Long(x.n) && x.deci <= DECI_MAX }

  function Power10(exp: nat): int { if exp == 0 then 1 else 10 * Power10(exp - 1) }

  function Max(a: nat, b: nat): nat { if a > b then a else b }

  /** The number as an integer with d digits behind the point, exactly. */
  function At(x: Number, d: nat): int
    requires x.deci <= d
  {
    x.n * Power10(d - x.deci)
  }

  /** The check on a scaled operand: that its sign did not change. */
  predicate Flipped(was: int, now: int) { (was > 0 && now < 0) || (was < 0 && now > 0) }

  /** The check on a sum, or on a difference. */
  predicate Overflows(plus: bool, l1: int, l2: int, n: int) {
    if plus then (l1 > 0 && l2 > 0 && n < 0) || (l1 < 0 && l2 < 0 && n > 0)
    else (l1 > 0 && l2 < 0 && n < 0) || (l1 < 0 && l2 > 0 && n > 0)
  }

  /** num_add; None is the error. The operand with more digits is not scaled. */
  function NumAdd(x: Number, y: Number, plus: bool): Option<Number> {
    var d := Max(x.deci, y.deci);
    var l1 := if x.deci > y.deci then x.n else Wrap(At(x, d));
    var l2 := if x.deci > y.deci then Wrap(At(y, d)) else y.n;
    var n := Wrap(if plus then l1 + l2 else l1 - l2);
    if (if x.deci > y.deci then Flipped(y.n, l2) else Flipped(x.n, l1)) then None
    else if Overflows(plus, l1, l2, n) then None
    else Some(Number(n, d))
  }

  /** The exact result with as many digits as the operand with more of them. */
  function Exact(x: Number, y: Number, plus: bool): int {
    var d := Max(x.deci, y.deci);
    if plus then At(x, d) + At(y, d) else At(x, d) - At(y, d)
  }

  /** Multiples of 2^64 make no difference. */
  lemma WrapShift(n: int, q: int)
    ensures Wrap(n + q * TWO64) == Wrap(n)
  {
    var x := n + TWO63;
    assert x == x / TWO64 * TWO64 + x % TWO64;
    assert x + q * TWO64 == (x / TWO64 + q) * TWO64 + x % TWO64;
  }

  lemma WrapSum(a: int, b: int)
    ensures Wrap(Wrap(a) + b) == Wrap(a + b) && Wrap(a + Wrap(b)) == Wrap(a + b)
    ensures Wrap(Wrap(a) - b) == Wrap(a - b) && Wrap(a - Wrap(b)) == Wrap(a - b)
  {
    var q, r := (a + TWO63) / TWO64, (b + TWO63) / TWO64;
    assert Wrap(a) == a + -q * TWO64 && Wrap(b) == b + -r * TWO64;
    WrapShift(a + b, -q);
    WrapShift(a + b, -r);
    WrapShift(a - b, -q);
    WrapShift(a - b, r);
  }

  lemma WrapIs(n: int)
    ensures Wrap(n) == n <==> Long(n)
  {
  }

  lemma SameDigits(x: Number)
    ensures At(x, x.deci) == x.n
  {
    assert Power10(0) == 1;
  }

  /** Where an integer comes to lie when only 64 bits of it are kept. */
  lemma WrapSign(n: int)
    ensures var m := n % TWO64; Sign(Wrap(n)) == if m == 0 then 0 else if m < TWO63 then 1 else -1
  {
    var q, m := n / TWO64, n % TWO64;
    assert n == m + q * TWO64;
    WrapShift(m, q);
    if m < TWO63 { WrapIs(m); } else {
      WrapShift(m, -1);
      WrapIs(m - TWO64);
    }
  }

  /** The operand that num_add scales: the one with fewer digits, the first if there are as many. */
  function Scaled(x: Number, y: Number): int {
    var d := Max(x.deci, y.deci); if x.deci > y.deci then At(y, d) else At(x, d)
  }

  /** A scaled operand that changes its sign with the bits that are lost, which is noticed. */
  predicate Turns(v: int) { (v > 0 && v % TWO64 >= TWO63) || (v < 0 && 0 < v % TWO64 < TWO63) }

  /** A sum of two 64-bit integers that does not fit, and is noticed: all but two kinds. */
  predicate Noticed(plus: bool, l1: int, l2: int) {
    !Long(if plus then l1 + l2 else l1 - l2) && if plus then !(l1 == l2 == -TWO63) else l1 != 0
  }

  lemma NoticedExactly(plus: bool, l1: int, l2: int)
    requires Long(l1) && Long(l2)
    ensures Overflows(plus, l1, l2, Wrap(if plus then l1 + l2 else l1 - l2)) <==> Noticed(plus, l1, l2)
  {
    var n := if plus then l1 + l2 else l1 - l2;
    WrapIs(n);
    WrapShift(n, 1);
    WrapShift(n, -1);
    if n >= TWO63 { WrapIs(n - TWO64); } else if n < -TWO63 { WrapIs(n + TWO64); }
  }

  lemma FlippedExactly(x: Number, d: nat)
    requires x.deci <= d
    ensures Flipped(x.n, Wrap(At(x, d))) <==> Turns(At(x, d))
  {
    PowerPositive(d - x.deci);
    var p := Power10(d - x.deci);
    if x.n > 0 { assert x.n * p > 0; } else if x.n < 0 { assert x.n * p < 0; }
    WrapSign(At(x, d));
  }

  /**
   * num_add fails exactly if the bits lost in scaling change the sign of the scaled operand, or the
   * sum of what is left does not fit and is noticed. With operands that can be scaled that is when
   * the exact result does not fit, but for the sum of the two least integers and for 0 minus the
   * least.
   */
  lemma AddFails(x: Number, y: Number, plus: bool)
    requires Held(x) && Held(y)
    ensures var d := Max(x.deci, y.deci); var a, b := At(x, d), At(y, d);
      (NumAdd(x, y, plus).None? <==> Turns(Scaled(x, y)) || Noticed(plus, Wrap(a), Wrap(b)))
      && (Long(a) && Long(b) ==> (NumAdd(x, y, plus).None? <==> Noticed(plus, a, b)))
  {
    var d := Max(x.deci, y.deci);
    var a, b := At(x, d), At(y, d);
    if x.deci >= y.deci { SameDigits(x); }
    if y.deci >= x.deci { SameDigits(y); }
    WrapIs(a);
    WrapIs(b);
    NoticedExactly(plus, Wrap(a), Wrap(b));
    if x.deci > y.deci { FlippedExactly(y, d); } else { FlippedExactly(x, d); }
    if Long(a) && Long(b) { SignKept(x, d); SignKept(y, d); }
  }

  /**
   * What num_add returns is the exact result modulo 2^64. So it goes wrong without an error exactly
   * if the exact result does not fit and AddFails does not say that it fails.
   */
  lemma AddExactlyIf(x: Number, y: Number, plus: bool)
    requires Held(x) && Held(y)
    ensures var d := Max(x.deci, y.deci); var r := NumAdd(x, y, plus); var e := Exact(x, y, plus);
      && (r.Some? ==> r.v == Number(Wrap(e), d))
      && (r == Some(Number(e, d)) <==> r.Some? && Long(e))
      && (r.Some? && r.v != Number(e, d) <==>
           !Long(e) && !Turns(Scaled(x, y)) && !Noticed(plus, Wrap(At(x, d)), Wrap(At(y, d))))
  {
    var d := Max(x.deci, y.deci);
    var a, b := At(x, d), At(y, d);
    if x.deci >= y.deci { SameDigits(x); }
    if y.deci >= x.deci { SameDigits(y); }
    WrapSum(a, b);
    WrapSum(a, Wrap(b));
    WrapIs(a);
    WrapIs(b);
    WrapIs(Exact(x, y, plus));
    AddFails(x, y, plus);
  }

  /** Scaling that fits keeps the sign. */
  lemma SignKept(x: Number, d: nat)
    requires x.deci <= d
    ensures !Flipped(x.n, At(x, d))
  {
    PowerPositive(d - x.deci);
    var p := Power10(d - x.deci);
    if x.n > 0 { assert x.n * p > 0; } else if x.n < 0 { assert x.n * p < 0; }
  }

  lemma {:induction false} PowerPositive(k: nat)
    ensures Power10(k) > 0
    decreases k
  {
    if k > 0 { PowerPositive(k - 1); }
  }

  /** Two overflows that the checks let through: a sum, and a scaled operand. */
  lemma Unnoticed()
    ensures NumAdd(Number(-TWO63, 0), Number(-TWO63, 0), true) == Some(Number(0, 0))
    ensures NumAdd(Number(0x2000_0000_0000_0000, 0), Number(0, 1), true) == Some(Number(0x4000_0000_0000_0000, 1))
  {
    assert Power10(1) == 10 && Power10(0) == 1;
  }

  /** num_rel, as the sign of a 64-bit difference that decides every comparison. */
  function NumRel(x: Number, y: Number): int {
    var l1 := if x.deci > y.deci then x.n else Wrap(At(x, Max(x.deci, y.deci)));
    var l2 := if x.deci > y.deci then Wrap(At(y, Max(x.deci, y.deci))) else y.n;
    Sign(Wrap(l1 - l2))
  }

  /** An integer whose lowest 64 bits have its sign. */
  predicate KeepsSign(e: int) {
    e == 0 || if e > 0 then 0 < e % TWO64 < TWO63 else e % TWO64 >= TWO63
  }

  /** The comparison is that of the lowest 64 bits of the exact difference with 0. */
  lemma RelIs(x: Number, y: Number)
    requires Held(x) && Held(y)
    ensures NumRel(x, y) == Sign(Wrap(Exact(x, y, false)))
  {
    var d := Max(x.deci, y.deci);
    var a, b := At(x, d), At(y, d);
    if x.deci >= y.deci { SameDigits(x); }
    if y.deci >= x.deci { SameDigits(y); }
    WrapIs(a);
    WrapIs(b);
    WrapSum(a, b);
    WrapSum(a, Wrap(b));
  }

  /**
   * So numbers are compared rightly exactly if these bits have the sign of the difference. With
   * operands that can be scaled that is when the difference fits, and the comparison is the other
   * way round when it does not.
   */
  lemma RelExactlyIf(x: Number, y: Number)
    requires Held(x) && Held(y)
    ensures var e := Exact(x, y, false); NumRel(x, y) == Sign(e) <==> KeepsSign(e)
    ensures var d := Max(x.deci, y.deci); var e := Exact(x, y, false);
      Long(At(x, d)) && Long(At(y, d)) ==> NumRel(x, y) == if Long(e) then Sign(e) else -Sign(e)
  {
    RelIs(x, y);
    WrapSign(Exact(x, y, false));
  }

  /** 10 is taken for less than 0.000000000000000001, and 2^62 for equal to 0.00. */
  lemma Reversed()
    ensures NumRel(Number(10, 0), Number(1, 18)) == -1
    ensures NumRel(Number(0x4000_0000_0000_0000, 0), Number(0, 2)) == 0
  {
    assert Power10(2) == 100 && Power10(1) == 10 && Power10(0) == 1;
    Power18();
  }

  lemma Power18()
    ensures Power10(18) == 1_000_000_000_000_000_000
  {
    assert Power10(6) == 1_000_000 && Power10(12) == 1_000_000_000_000;
  }
}
