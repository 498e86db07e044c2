/**
 * Values as they lie in memory: on the stack of the machine and among the constants of a code
 * block. A header of two bytes tells type and length, and val_size (server/hb/int.c:81-104) reads
 * from it alone where the next value starts.
 */
module Values {
  type byte = b: int | 0 <= b < 256

  /** The bytes of a number are those of a 64-bit integer, of which deci digits stand behind the
      point, or those of a double. */
  datatype Val =
    | Num(raw: seq<byte>, deci: nat) | Real(raw: seq<byte>) | NullNum
    | Logic(b: bool) | NullLogic
    | Date(raw: seq<byte>) | NullDate
    | Str(raw: seq<byte>)

  const REAL: nat := 0x3f
  const LOGIC: nat := 1
  const NUMBER: nat := 2
  const DATE: nat := 3
  const CHARCTR: nat := 4

  /** The fields have room for it: 6 bits of digits, 12 bits of length. */
  predicate Fits(v: Val) {
    match v
    case Num(raw, deci) => |raw| == 8 && deci < REAL
    case Real(raw) => |raw| == 8
    case Date(raw) => |raw| == 4
    case Str(raw) => |raw| < 4096
    case _ => true
  }

  type Value = v: Val | Fits(v) witness NullNum

  function Payload(v: Value): seq<byte> {
    match v
    case Num(raw, _) => raw
    case Real(raw) => raw
    case Logic(b) => [if b then 1 else 0]
    case Date(raw) => raw
    case Str(raw) => raw
    case _ => []
  }

  /** Four bits of type and twelve of length; for a number the upper six of these are its digits. */
  function Header(v: Value): (h: nat)
    ensures h < 65536
  {
    match v
    case Num(_, deci) => NUMBER + 16 * (8 + 64 * deci)
    case Real(_) => NUMBER + 16 * (8 + 64 * REAL)
    case NullNum => NUMBER
    case Logic(_) => LOGIC + 16
    case NullLogic => LOGIC
    case Date(_) => DATE + 16 * 4
    case NullDate => DATE
    case Str(raw) => CHARCTR + 16 * |raw|
  }

  function Encode(v: Value): (s: seq<byte>)
    ensures |s| >= 2
  {
    [Header(v) % 256, Header(v) / 256] + Payload(v)
  }

  function HeaderAt(m: seq<byte>): (h: nat)
    requires |m| >= 2
  {
    var lo: int, hi: int := m[0], m[1];
    lo + 256 * hi
  }

  /** val_size. */
  function ValSize(m: seq<byte>): (n: nat)
    requires |m| >= 2
    ensures n >= 2
  {
    var typ, len := HeaderAt(m) % 16, HeaderAt(m) / 16;
    if len == 0 then 2
    else if typ == 0 then 2
    else if typ == LOGIC then 3
    else if typ == NUMBER then len % 64 + 2
    else if typ == DATE then 4 + 2
    else len + 2
  }

  function TypeOf(v: Value): nat {
    if v.Num? || v.Real? || v.NullNum? then NUMBER else if v.Logic? || v.NullLogic? then LOGIC
    else if v.Date? || v.NullDate? then DATE else CHARCTR
  }

  /** The twelve bits above the type. */
  function LenOf(v: Value): nat {
    match v
    case Num(_, deci) => 8 + 64 * deci
    case Real(_) => 8 + 64 * REAL
    case Logic(_) => 1
    case Date(_) => 4
    case Str(raw) => |raw|
    case _ => 0
  }

  /** The bytes of each kind of value, type in the lower four bits of the first of them. */
  lemma Layout(v: Value)
    ensures match v
      case Num(raw, deci) => Encode(v) == [130, 4 * deci] + raw
      case Real(raw) => Encode(v) == [130, 252] + raw
      case NullNum => Encode(v) == [2, 0]
      case Logic(b) => Encode(v) == [17, 0, if b then 1 else 0]
      case NullLogic => Encode(v) == [1, 0]
      case Date(raw) => Encode(v) == [67, 0] + raw
      case NullDate => Encode(v) == [3, 0]
      case Str(raw) => Encode(v) == [4 + 16 * (|raw| % 16), |raw| / 16] + raw
  {
    match v
    case Num(raw, deci) => TwoBytes(Header(v), 130, 4 * deci);
    case Real(raw) => TwoBytes(Header(v), 130, 252);
    case NullNum => TwoBytes(Header(v), 2, 0);
    case Logic(b) => TwoBytes(Header(v), 17, 0);
    case NullLogic => TwoBytes(Header(v), 1, 0);
    case Date(raw) => TwoBytes(Header(v), 67, 0);
    case NullDate => TwoBytes(Header(v), 3, 0);
    case Str(raw) => TwoBytes(Header(v), 4 + 16 * (|raw| % 16), |raw| / 16);
  }

  lemma TwoBytes(h: nat, lo: nat, hi: nat)
    requires h == 256 * hi + lo && lo < 256
    ensures h % 256 == lo && h / 256 == hi
  {
  }

  lemma HeaderParts(v: Value)
    ensures Header(v) == TypeOf(v) + 16 * LenOf(v) && Header(v) % 16 == TypeOf(v) && Header(v) / 16 == LenOf(v)
  {
  }

  lemma HeaderBack(v: Value, rest: seq<byte>)
    ensures HeaderAt(Encode(v) + rest) == Header(v)
  {
    var m := Encode(v) + rest;
    assert m[0] == Header(v) % 256 && m[1] == Header(v) / 256;
  }

  /** The size read from the header is that of the value, whatever follows it. */
  lemma SizeOfEncoded(v: Value, rest: seq<byte>)
    ensures ValSize(Encode(v) + rest) == |Encode(v)|
  {
    HeaderBack(v, rest);
    HeaderParts(v);
  }

  /** The value that a type, a length and the bytes behind the header make. */
  function Made(typ: nat, len: nat, body: seq<byte>): Val
    requires typ == LOGIC && len != 0 ==> |body| > 0
  {
    if typ == NUMBER then
      if len == 0 then NullNum
      else if len / 64 == REAL then Real(body)
      else Num(body, len / 64)
    else if typ == LOGIC then (if len == 0 then NullLogic else Logic(body[0] != 0))
    else if typ == DATE then (if len == 0 then NullDate else Date(body))
    else Str(body)
  }

  /** The value that begins here, as the operations read it. */
  function Decode(m: seq<byte>): Val
    requires |m| >= 2 && ValSize(m) <= |m|
  {
    Made(HeaderAt(m) % 16, HeaderAt(m) / 16, m[2..ValSize(m)])
  }

  lemma MadeBack(v: Value)
    ensures Made(TypeOf(v), LenOf(v), Payload(v)) == v
  {
  }

  /** A value is read back as it was written, whatever follows it. */
  lemma Decoded(v: Value, rest: seq<byte>)
    ensures ValSize(Encode(v) + rest) == |Encode(v)| && Decode(Encode(v) + rest) == v
  {
    var m := Encode(v) + rest;
    HeaderBack(v, rest);
    HeaderParts(v);
    SizeOfEncoded(v, rest);
    assert m[2..|Encode(v)|] == Payload(v);
    MadeBack(v);
  }

  // ---- values one behind another ----

  function EncodeAll(vs: seq<Value>): (s: seq<byte>)
    decreases |vs|
  {
    if vs == [] then [] else Encode(vs[0]) + EncodeAll(vs[1..])
  }

  lemma {:induction false} EncodeAppend(a: seq<Value>, b: seq<Value>)
    ensures EncodeAll(a + b) == EncodeAll(a) + EncodeAll(b)
    decreases |a|
  {
    if a == [] {
      assert a + b == b;
    } else {
      assert (a + b)[1..] == a[1..] + b;
      EncodeAppend(a[1..], b);
    }
  }

  /** Step over i values from place `at` on, with the size of each read where it begins. */
  function Walk(size: nat -> nat, at: nat, i: nat): nat
    decreases i
  {
    if i == 0 then at else Walk(size, at + size(at), i - 1)
  }

  function SizeIn(m: seq<byte>): nat -> nat {
    (at: nat) => if at + 2 <= |m| then ValSize(m[at..]) else 0
  }

  /** cb_data_offset. */
  function Offset(m: seq<byte>, i: nat): nat { Walk(SizeIn(m), 0, i) }

  /** These values lie in m from place `at` on. */
  ghost predicate Lies(m: seq<byte>, at: nat, vs: seq<Value>)
    decreases |vs|
  {
    at <= |m| && (vs == [] || (LiesOne(m, at, vs[0]) && Lies(m, at + |Encode(vs[0])|, vs[1..])))
  }

  ghost predicate LiesOne(m: seq<byte>, at: nat, v: Value) {
    at + |Encode(v)| <= |m| && m[at..] == Encode(v) + m[at + |Encode(v)|..]
  }

  lemma LiesSize(m: seq<byte>, at: nat, v: Value)
    requires LiesOne(m, at, v)
    ensures ValSize(m[at..]) == |Encode(v)| && Decode(m[at..]) == v
  {
    Decoded(v, m[at + |Encode(v)|..]);
  }

  /** Where the i-th value lies. */
  function Place(at: nat, vs: seq<Value>, i: nat): nat
    requires i <= |vs|
    decreases i
  {
    if i == 0 then at else Place(at + |Encode(vs[0])|, vs[1..], i - 1)
  }

  lemma {:induction false} LiesFrom(m: seq<byte>, at: nat, vs: seq<Value>, i: nat)
    requires Lies(m, at, vs) && i <= |vs|
    ensures Lies(m, Place(at, vs, i), vs[i..])
    decreases i
  {
    if i > 0 {
      var tail := vs[1..];
      assert tail[i - 1..] == vs[i..];
      LiesFrom(m, at + |Encode(vs[0])|, tail, i - 1);
    } else {
      assert vs[0..] == vs;
    }
  }

  /** A size function that is right about these values. */
  ghost predicate Sizes(size: nat -> nat, at: nat, vs: seq<Value>)
    decreases |vs|
  {
    vs == [] || (size(at) == |Encode(vs[0])| && Sizes(size, at + |Encode(vs[0])|, vs[1..]))
  }

  lemma {:induction false} LiesSizes(m: seq<byte>, at: nat, vs: seq<Value>)
    requires Lies(m, at, vs)
    ensures Sizes(SizeIn(m), at, vs)
    decreases |vs|
  {
    if vs != [] {
      LiesSize(m, at, vs[0]);
      LiesSizes(m, at + |Encode(vs[0])|, vs[1..]);
    }
  }

  lemma {:induction false} WalkFinds(size: nat -> nat, at: nat, vs: seq<Value>, i: nat)
    requires Sizes(size, at, vs) && i <= |vs|
    ensures Walk(size, at, i) == Place(at, vs, i)
    decreases i
  {
    if i > 0 { WalkFinds(size, at + |Encode(vs[0])|, vs[1..], i - 1); }
  }

  /** The walk finds the i-th constant, and reads it back there. */
  lemma OffsetFinds(m: seq<byte>, vs: seq<Value>, i: nat)
    requires Lies(m, 0, vs) && i < |vs|
    ensures Offset(m, i) == Place(0, vs, i) && LiesOne(m, Place(0, vs, i), vs[i])
    ensures var o := Place(0, vs, i);
      o + 2 <= |m| && ValSize(m[o..]) == |Encode(vs[i])| <= |m[o..]| && Decode(m[o..]) == vs[i]
  {
    LiesSizes(m, 0, vs);
    WalkFinds(SizeIn(m), 0, vs, i);
    LiesFrom(m, 0, vs, i);
    assert vs[i..][0] == vs[i];
    LiesSize(m, Place(0, vs, i), vs[i]);
  }

  lemma {:induction false} EncodedLies(pre: seq<byte>, vs: seq<Value>, rest: seq<byte>)
    ensures Lies(pre + EncodeAll(vs) + rest, |pre|, vs)
    decreases |vs|
  {
    if vs != [] {
      var v, more := Encode(vs[0]), EncodeAll(vs[1..]);
      EncodedLies(pre + v, vs[1..], rest);
      Peel(pre, v, more, rest);
    }
  }

  lemma Peel(pre: seq<byte>, v: seq<byte>, more: seq<byte>, rest: seq<byte>)
    ensures var m := pre + (v + more) + rest;
      m == (pre + v) + more + rest && |pre| + |v| <= |m| && m[|pre|..] == v + m[|pre| + |v|..]
  {
  }
}
