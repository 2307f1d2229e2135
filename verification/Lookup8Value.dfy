/**
 burtle_hash on one key, worked out: twelve lines of mix64 on literal words.  Exclusive or is done on
 hexadecimal digits, which is proved to be what it does to numbers.
 */
module Lookup8Value {
  import opened Words
  import opened Lookup8

  // ---------- Digits ----------

  function One(b: bool): nat { if b then 1 else 0 }

  lemma BitOn(a: bool, b: bool, h: nat, k: nat, r: nat, x: nat, y: nat, z: nat)
    requires XorBits(h, k) == r && x == One(a) + 2 * h && y == One(b) + 2 * k && z == One(a != b) + 2 * r
    ensures XorBits(x, y) == z
  {
    Halves(h, One(a));
    Halves(k, One(b));
    XorStep(x, y);
  }

  function Nibble(a: bool, b: bool, c: bool, d: bool): nat { One(a) + 2 * One(b) + 4 * One(c) + 8 * One(d) }

  lemma NibbleOn(a: bool, b: bool, c: bool, d: bool, e: bool, f: bool, g: bool, i: bool, h: nat, k: nat, r: nat, x: nat, y: nat, z: nat)
    requires XorBits(h, k) == r
    requires x == Nibble(a, b, c, d) + 16 * h && y == Nibble(e, f, g, i) + 16 * k && z == Nibble(a != e, b != f, c != g, d != i) + 16 * r
    ensures XorBits(x, y) == z
  {
    var h3, k3, r3 := One(d) + 2 * h, One(i) + 2 * k, One(d != i) + 2 * r;
    BitOn(d, i, h, k, r, h3, k3, r3);
    var h2, k2, r2 := One(c) + 2 * h3, One(g) + 2 * k3, One(c != g) + 2 * r3;
    BitOn(c, g, h3, k3, r3, h2, k2, r2);
    var h1, k1, r1 := One(b) + 2 * h2, One(f) + 2 * k2, One(b != f) + 2 * r2;
    BitOn(b, f, h2, k2, r2, h1, k1, r1);
    BitOn(a, e, h1, k1, r1, x, y, z);
  }

  lemma Bits4(x: bv4)
    ensures x as int == Nibble(x & 1 == 1, x & 2 == 2, x & 4 == 4, x & 8 == 8)
  {
  }

  lemma Apart4(x: bv4, y: bv4)
    ensures (x ^ y) & 1 == 1 <==> (x & 1 == 1) != (y & 1 == 1)
    ensures (x ^ y) & 2 == 2 <==> (x & 2 == 2) != (y & 2 == 2)
    ensures (x ^ y) & 4 == 4 <==> (x & 4 == 4) != (y & 4 == 4)
    ensures (x ^ y) & 8 == 8 <==> (x & 8 == 8) != (y & 8 == 8)
  {
  }

  lemma Sum4(d: bv4, e: bv4)
    ensures (d ^ e) as int == Nibble((d & 1 == 1) != (e & 1 == 1), (d & 2 == 2) != (e & 2 == 2), (d & 4 == 4) != (e & 4 == 4), (d & 8 == 8) != (e & 8 == 8))
  {
    Apart4(d, e);
    Bits4(d ^ e);
  }

  /** f is the exclusive or of the digits d and e. */
  ghost predicate DigitXor(d: nat, e: nat, f: nat) {
    forall h: nat, k: nat :: XorBits(d + 16 * h, e + 16 * k) == f + 16 * XorBits(h, k)
  }

  lemma Xor4(d: bv4, e: bv4)
    ensures DigitXor(d as int, e as int, (d ^ e) as int)
  {
    Bits4(d);
    Bits4(e);
    Sum4(d, e);
    forall h: nat, k: nat ensures XorBits(d as int + 16 * h, e as int + 16 * k) == (d ^ e) as int + 16 * XorBits(h, k) {
      NibbleOn(d & 1 == 1, d & 2 == 2, d & 4 == 4, d & 8 == 8, e & 1 == 1, e & 2 == 2, e & 4 == 4, e & 8 == 8, h, k, XorBits(h, k),
               d as int + 16 * h, e as int + 16 * k, (d ^ e) as int + 16 * XorBits(h, k));
    }
  }

  lemma DigitOn(d: nat, e: nat, f: nat, h: nat, k: nat, r: nat, x: nat, y: nat, z: nat)
    requires DigitXor(d, e, f) && XorBits(h, k) == r && x == d + 16 * h && y == e + 16 * k && z == f + 16 * r
    ensures XorBits(x, y) == z
  {
  }

  ghost predicate NatXor(x: nat, y: nat, z: nat) {
    XorBits(x, y) == z
  }

  /** One more digit. */
  function On(h: nat, d: bv4): nat { d as int + 16 * h }

  lemma OneMore(h: nat, k: nat, r: nat, x: bv4, y: bv4)
    requires NatXor(h, k, r)
    ensures NatXor(On(h, x), On(k, y), On(r, x ^ y))
  {
    Xor4(x, y);
    DigitOn(x as int, y as int, (x ^ y) as int, h, k, r, On(h, x), On(k, y), On(r, x ^ y));
  }

  function Four(h: nat, a: bv4, b: bv4, c: bv4, d: bv4): nat { On(On(On(On(h, a), b), c), d) }

  lemma FourMore(h: nat, k: nat, z: nat, p: bv4, q: bv4, r: bv4, s: bv4, t: bv4, u: bv4, v: bv4, w: bv4)
    requires NatXor(h, k, z)
    ensures NatXor(Four(h, p, q, r, s), Four(k, t, u, v, w), Four(z, p ^ t, q ^ u, r ^ v, s ^ w))
  {
    OneMore(h, k, z, p, t);
    OneMore(On(h, p), On(k, t), On(z, p ^ t), q, u);
    OneMore(On(On(h, p), q), On(On(k, t), u), On(On(z, p ^ t), q ^ u), r, v);
    OneMore(On(On(On(h, p), q), r), On(On(On(k, t), u), v), On(On(On(z, p ^ t), q ^ u), r ^ v), s, w);
  }

  /** Four digits. */
  datatype Quad = Quad(a: bv4, b: bv4, c: bv4, d: bv4) {
    /** With h before them. */
    function After(h: nat): nat { Four(h, a, b, c, d) }

    function Xor(x: Quad): Quad { Quad(a ^ x.a, b ^ x.b, c ^ x.c, d ^ x.d) }
  }

  lemma QuadMore(h: nat, k: nat, z: nat, p: Quad, q: Quad)
    requires NatXor(h, k, z)
    ensures NatXor(p.After(h), q.After(k), p.Xor(q).After(z))
  {
    FourMore(h, k, z, p.a, p.b, p.c, p.d, q.a, q.b, q.c, q.d);
  }

  /** Sixteen digits. */
  datatype Hex = Hex(a: Quad, b: Quad, c: Quad, d: Quad) {
    function Value(): nat {
      0x1000000000000000 * a.a as int + 0x100000000000000 * a.b as int + 0x10000000000000 * a.c as int + 0x1000000000000 * a.d as int
      + 0x100000000000 * b.a as int + 0x10000000000 * b.b as int + 0x1000000000 * b.c as int + 0x100000000 * b.d as int
      + 0x10000000 * c.a as int + 0x1000000 * c.b as int + 0x100000 * c.c as int + 0x10000 * c.d as int
      + 0x1000 * d.a as int + 0x100 * d.b as int + 0x10 * d.c as int + d.d as int
    }

    function After(z: nat): nat { d.After(c.After(b.After(a.After(z)))) }

    function Xor(x: Hex): Hex { Hex(a.Xor(x.a), b.Xor(x.b), c.Xor(x.c), d.Xor(x.d)) }
  }

  lemma ValueIsDigits(x: Hex)
    ensures x.Value() == x.After(0)
  {
  }

  lemma XorDigits(p: Hex, q: Hex, z: nat)
    requires NatXor(z, z, z)
    ensures NatXor(p.After(z), q.After(z), p.Xor(q).After(z))
  {
    var r := p.Xor(q);
    QuadMore(z, z, z, p.a, q.a);
    QuadMore(p.a.After(z), q.a.After(z), r.a.After(z), p.b, q.b);
    QuadMore(p.b.After(p.a.After(z)), q.b.After(q.a.After(z)), r.b.After(r.a.After(z)), p.c, q.c);
    QuadMore(p.c.After(p.b.After(p.a.After(z))), q.c.After(q.b.After(q.a.After(z))), r.c.After(r.b.After(r.a.After(z))), p.d, q.d);
  }

  lemma XorIs(p: Hex, q: Hex, x: Word, y: Word, z: Word)
    requires x == p.Value() && y == q.Value() && z == p.Xor(q).Value()
    ensures Xor(x, y) == z
  {
    ValueIsDigits(p);
    ValueIsDigits(q);
    ValueIsDigits(p.Xor(q));
    assert NatXor(0, 0, 0);
    XorDigits(p, q, 0);
  }

  // ---------- Lines ----------

  lemma MinusIs(x: Word, y: Word, z: Word, wraps: nat, d: Word)
    requires d == (x as int) - y - z + wraps * M
    ensures Minus(Minus(x, y), z) == d
  {
    var e: int := (x as int) - y;
    assert Minus(x, y) == e || Minus(x, y) == e + M;
    assert wraps < 3;
  }

  lemma LeftIs(x: Word, n: nat, power: nat, gone: nat, y: Word)
    requires Pow2(n) == power && x * power == y + gone * M
    ensures Left(x, n) == y
  {
    QuotientIs(x * power, M, gone, y);
  }

  lemma RightIs(x: Word, n: nat, power: nat, gone: nat, y: Word)
    requires Pow2(n) == power && x == y * power + gone && gone < power
    ensures Right(x, n) == y
  {
    QuotientIs(x, power, y, gone);
  }

  /** A line that shifts right by n takes s to t: d are the digits of the difference, and q those of the shifted word, from which gone is cut off. */
  lemma RightLine(s: Abc, n: nat, power: nat, wraps: nat, gone: nat, d: Hex, q: Hex, x: Word, y: Word, t: Abc)
    requires t.a == s.b && t.b == s.c && x == d.Value() && y == q.Value() && t.c == d.Xor(q).Value()
    requires x == (s.a as int) - s.b - s.c + wraps * M && Pow2(n) == power
    requires s.c == y * power + gone && gone < power
    ensures Line(s, n) == t
  {
    MinusIs(s.a, s.b, s.c, wraps, x);
    RightIs(s.c, n, power, gone, y);
    XorIs(d, q, x, y, t.c);
  }

  lemma LeftLine(s: Abc, n: nat, power: nat, wraps: nat, gone: nat, d: Hex, q: Hex, x: Word, y: Word, t: Abc)
    requires t.a == s.b && t.b == s.c && x == d.Value() && y == q.Value() && t.c == d.Xor(q).Value()
    requires x == (s.a as int) - s.b - s.c + wraps * M && Pow2(n) == power && n > 0
    requires s.c * power == y + gone * M
    ensures Line(s, 0 - n) == t
  {
    MinusIs(s.a, s.b, s.c, wraps, x);
    LeftIs(s.c, n, power, gone, y);
    XorIs(d, q, x, y, t.c);
  }

  // ---------- A key ----------

  /** The words before the last mix64, and after each line of it. */
  const S0: Abc := Abc(0x807060504030202, 0x100f0e0d0c0b0a0a, 0xb54d8ecd925c8d2a)
  const S1: Abc := Abc(0x100f0e0d0c0b0a0a, 0xb54d8ecd925c8d2a, 0x42aa692a658dc37f)
  const S2: Abc := Abc(0xb54d8ecd925c8d2a, 0x42aa692a658dc37f, 0x4cc542de0fa64761)
  const S3: Abc := Abc(0x42aa692a658dc37f, 0x4cc542de0fa64761, 0x25912787c327240d)
  const S4: Abc := Abc(0x4cc542de0fa64761, 0x25912787c327240d, 0xd053fec492561c8f)
  const S5: Abc := Abc(0x25912787c327240d, 0xd053fec492561c8f, 0x34a9379ffda906c5)
  const S6: Abc := Abc(0xd053fec492561c8f, 0x34a9379ffda906c5, 0x2136b89fccc5488f)
  const S7: Abc := Abc(0x34a9379ffda906c5, 0x2136b89fccc5488f, 0x7a740e84c3c11a28)
  const S8: Abc := Abc(0x2136b89fccc5488f, 0x7a740e84c3c11a28, 0xacae707b6d22a40e)
  const S9: Abc := Abc(0x7a740e84c3c11a28, 0xacae707b6d22a40e, 0xfa01ac51948c2e0d)
  const S10: Abc := Abc(0xacae707b6d22a40e, 0xfa01ac51948c2e0d, 0xd3cc51ad070b00cf)
  const S11: Abc := Abc(0xfa01ac51948c2e0d, 0xd3cc51ad070b00cf, 0x98546e50d2b77532)
  const S12: Abc := Abc(0xd3cc51ad070b00cf, 0x98546e50d2b77532, 0x8de0ee32eb70fb46)

  lemma Line1(s: Abc, n: nat, power: nat, t: Abc)
    requires s == S0 && t == S1 && n == 43 && power == 0x80000000000 && Pow2(n) == power
    ensures Line(s, n) == t
  {
    RightLine(s, n, power, 1, 0x6cd925c8d2a,
             Hex(Quad(4, 2, 0xa, 0xa), Quad(6, 9, 2, 0xa), Quad(6, 5, 9, 0xb), Quad(6, 0xa, 0xc, 0xe)),
             Hex(Quad(0, 0, 0, 0), Quad(0, 0, 0, 0), Quad(0, 0, 1, 6), Quad(0xa, 9, 0xb, 1)),
             0x42aa692a659b6ace, 0x16a9b1, t);
  }

  lemma Line2(s: Abc, n: nat, power: nat, t: Abc)
    requires s == S1 && t == S2 && n == 9 && power == 0x200 && Pow2(n) == power
    ensures Line(s, 0 - n) == t
  {
    LeftLine(s, n, power, 1, 0x85,
             Hex(Quad(1, 8, 1, 7), Quad(1, 6, 1, 5), Quad(1, 4, 2, 0), Quad(0xb, 9, 6, 1)),
             Hex(Quad(5, 4, 0xd, 2), Quad(5, 4, 0xc, 0xb), Quad(1, 0xb, 8, 6), Quad(0xf, 0xe, 0, 0)),
             0x181716151420b961, 0x54d254cb1b86fe00, t);
  }

  lemma Line3(s: Abc, n: nat, power: nat, t: Abc)
    requires s == S2 && t == S3 && n == 8 && power == 0x100 && Pow2(n) == power
    ensures Line(s, n) == t
  {
    RightLine(s, n, power, 0, 0x61,
             Hex(Quad(2, 5, 0xd, 0xd), Quad(0xe, 2, 0xc, 5), Quad(1, 0xd, 2, 8), Quad(8, 2, 4, 0xa)),
             Hex(Quad(0, 0, 4, 0xc), Quad(0xc, 5, 4, 2), Quad(0xd, 0xe, 0, 0xf), Quad(0xa, 6, 4, 7)),
             0x25dde2c51d28824a, 0x4cc542de0fa647, t);
  }

  lemma Line4(s: Abc, n: nat, power: nat, t: Abc)
    requires s == S3 && t == S4 && n == 38 && power == 0x4000000000 && Pow2(n) == power
    ensures Line(s, n) == t
  {
    RightLine(s, n, power, 1, 0x7c327240d,
             Hex(Quad(0xd, 0, 5, 3), Quad(0xf, 0xe, 0xc, 4), Quad(9, 2, 0xc, 0), Quad(5, 8, 1, 1)),
             Hex(Quad(0, 0, 0, 0), Quad(0, 0, 0, 0), Quad(0, 0, 9, 6), Quad(4, 4, 9, 0xe)),
             0xd053fec492c05811, 0x96449e, t);
  }

  lemma Line5(s: Abc, n: nat, power: nat, t: Abc)
    requires s == S4 && t == S5 && n == 23 && power == 0x800000 && Pow2(n) == power
    ensures Line(s, 0 - n) == t
  {
    LeftLine(s, n, power, 1, 0x6829ff,
             Hex(Quad(5, 6, 0xe, 0), Quad(1, 0xc, 9, 1), Quad(0xb, 0xa, 2, 9), Quad(0, 6, 0xc, 5)),
             Hex(Quad(6, 2, 4, 9), Quad(2, 0xb, 0, 0xe), Quad(4, 7, 8, 0), Quad(0, 0, 0, 0)),
             0x56e01c91ba2906c5, 0x62492b0e47800000, t);
  }

  lemma Line6(s: Abc, n: nat, power: nat, t: Abc)
    requires s == S5 && t == S6 && n == 5 && power == 0x20 && Pow2(n) == power
    ensures Line(s, n) == t
  {
    RightLine(s, n, power, 1, 0x5,
             Hex(Quad(2, 0, 9, 3), Quad(0xf, 1, 2, 3), Quad(3, 3, 2, 8), Quad(0, 0, 0xb, 9)),
             Hex(Quad(0, 1, 0xa, 5), Quad(4, 9, 0xb, 0xc), Quad(0xf, 0xf, 0xe, 0xd), Quad(4, 8, 3, 6)),
             0x2093f123332800b9, 0x1a549bcffed4836, t);
  }

  lemma Line7(s: Abc, n: nat, power: nat, t: Abc)
    requires s == S6 && t == S7 && n == 35 && power == 0x800000000 && Pow2(n) == power
    ensures Line(s, n) == t
  {
    RightLine(s, n, power, 0, 0x7ccc5488f,
             Hex(Quad(7, 0xa, 7, 4), Quad(0, 0xe, 8, 4), Quad(0xc, 7, 0xe, 7), Quad(0xc, 0xd, 3, 0xb)),
             Hex(Quad(0, 0, 0, 0), Quad(0, 0, 0, 0), Quad(0, 4, 2, 6), Quad(0xd, 7, 1, 3)),
             0x7a740e84c7e7cd3b, 0x426d713, t);
  }

  lemma Line8(s: Abc, n: nat, power: nat, t: Abc)
    requires s == S7 && t == S8 && n == 49 && power == 0x2000000000000 && Pow2(n) == power
    ensures Line(s, 0 - n) == t
  {
    LeftLine(s, n, power, 1, 0xf4e81d098782,
             Hex(Quad(9, 8, 0xf, 0xe), Quad(7, 0, 7, 0xb), Quad(6, 0xd, 2, 2), Quad(0xa, 4, 0, 0xe)),
             Hex(Quad(3, 4, 5, 0), Quad(0, 0, 0, 0), Quad(0, 0, 0, 0), Quad(0, 0, 0, 0)),
             0x98fe707b6d22a40e, 0x3450000000000000, t);
  }

  lemma Line9(s: Abc, n: nat, power: nat, t: Abc)
    requires s == S8 && t == S9 && n == 11 && power == 0x800 && Pow2(n) == power
    ensures Line(s, n) == t
  {
    RightLine(s, n, power, 2, 0x40e,
             Hex(Quad(0xf, 0xa, 1, 4), Quad(3, 9, 9, 0xf), Quad(9, 0xb, 0xe, 1), Quad(8, 0xa, 5, 9)),
             Hex(Quad(0, 0, 1, 5), Quad(9, 5, 0xc, 0xe), Quad(0, 0xf, 6, 0xd), Quad(0xa, 4, 5, 4)),
             0xfa14399f9be18a59, 0x1595ce0f6da454, t);
  }

  lemma Line10(s: Abc, n: nat, power: nat, t: Abc)
    requires s == S9 && t == S10 && n == 12 && power == 0x1000 && Pow2(n) == power
    ensures Line(s, n) == t
  {
    RightLine(s, n, power, 2, 0xe0d,
             Hex(Quad(0xd, 3, 0xc, 3), Quad(0xf, 1, 0xb, 7), Quad(0xc, 2, 1, 2), Quad(4, 8, 0, 0xd)),
             Hex(Quad(0, 0, 0, 0xf), Quad(0xa, 0, 1, 0xa), Quad(0xc, 5, 1, 9), Quad(4, 8, 0xc, 2)),
             0xd3c3f1b7c212480d, 0xfa01ac51948c2, t);
  }

  lemma Line11(s: Abc, n: nat, power: nat, t: Abc)
    requires s == S10 && t == S11 && n == 18 && power == 0x40000 && Pow2(n) == power
    ensures Line(s, 0 - n) == t
  {
    LeftLine(s, n, power, 2, 0x34f31,
             Hex(Quad(0xd, 0xe, 0xe, 0), Quad(7, 2, 7, 0xc), Quad(0xd, 1, 8, 0xb), Quad(7, 5, 3, 2)),
             Hex(Quad(4, 6, 0xb, 4), Quad(1, 0xc, 2, 0xc), Quad(0, 3, 3, 0xc), Quad(0, 0, 0, 0)),
             0xdee0727cd18b7532, 0x46b41c2c033c0000, t);
  }

  lemma Line12(s: Abc, n: nat, power: nat, t: Abc)
    requires s == S11 && t == S12 && n == 22 && power == 0x400000 && Pow2(n) == power
    ensures Line(s, n) == t
  {
    RightLine(s, n, power, 1, 0x377532,
             Hex(Quad(8, 0xd, 0xe, 0), Quad(0xe, 0xc, 5, 3), Quad(0xb, 0xa, 0xc, 9), Quad(0xb, 8, 0, 0xc)),
             Hex(Quad(0, 0, 0, 0), Quad(0, 2, 6, 1), Quad(5, 1, 0xb, 9), Quad(4, 3, 4, 0xa)),
             0x8de0ec53bac9b80c, 0x26151b9434a, t);
  }

  lemma Powers()
    ensures Pow2(5) == 0x20 && Pow2(8) == 0x100 && Pow2(9) == 0x200 && Pow2(11) == 0x800 && Pow2(12) == 0x1000 && Pow2(18) == 0x4_0000
    ensures Pow2(22) == 0x40_0000 && Pow2(23) == 0x80_0000 && Pow2(35) == 0x8_0000_0000 && Pow2(38) == 0x40_0000_0000
    ensures Pow2(43) == 0x800_0000_0000 && Pow2(49) == 0x2_0000_0000_0000
  {
    Pow64();
    assert Pow2(8) == 0x100;
    assert Pow2(16) == 0x1_0000;
    assert Pow2(24) == 0x100_0000;
    assert Pow2(32) == 0x1_0000_0000;
    assert Pow2(40) == 0x100_0000_0000;
  }

  lemma MixValue()
    ensures Mix(S0) == S12
  {
    Powers();
    Line1(S0, 43, 0x80000000000, S1);
    Line2(S1, 9, 0x200, S2);
    Line3(S2, 8, 0x100, S3);
    Line4(S3, 38, 0x4000000000, S4);
    Line5(S4, 23, 0x800000, S5);
    Line6(S5, 5, 0x20, S6);
    Line7(S6, 35, 0x800000000, S7);
    Line8(S7, 49, 0x2000000000000, S8);
    Line9(S8, 11, 0x800, S9);
    Line10(S9, 12, 0x1000, S10);
    Line11(S10, 18, 0x40000, S11);
    Line12(S11, 22, 0x400000, S12);
    TwelveLines(S0);
  }

  lemma AddedBytes(s: Abc, key: seq<Byte>)
    requires s == Start(1) && |key| == 23 && forall i :: 0 <= i < 23 ==> key[i] == i + 1
    ensures AddedLast(s, key, 23) == S0
  {
    LoadIsLittle(Eight(key, 0));
    LoadIsLittle(Eight(key, 8));
    LoadIsLittle(Seven(key, 16));
  }

  /** The bytes 1 to 23, in order, hash at level 1 to 0x8de0ee32eb70fb46. */
  lemma HashOfBytes(key: seq<Byte>)
    requires |key| == 23 && forall i :: 0 <= i < 23 ==> key[i] == i + 1
    ensures Final(MIX64, 1, key).c == 0x8de0ee32eb70fb46
  {
    AddedBytes(Start(1), key);
    MixValue();
  }
}
