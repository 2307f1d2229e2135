/**
 64-bit words: numbers below 2^64, whose arithmetic wraps.  Shifts multiply and divide; that this moves
 bits, and that exclusive or works bit by bit, is proved of the bits.
 */
module Words {

  const M: nat := 0x1_0000_0000_0000_0000

  type Word = w: nat | w < M

  function Wrap(x: int): Word { x % M }
  function Plus(x: Word, y: Word): Word { Wrap(x + y) }
  function Minus(x: Word, y: Word): Word { Wrap(x - y) }
  function Left(x: Word, n: nat): Word { Wrap(x * Pow2(n)) }
  function Right(x: Word, n: nat): Word { Quotient(x, Pow2(n)) }

  function Quotient(x: nat, d: nat): (q: nat)
    requires d > 0
    ensures q <= x
  {
    RightBelow(x, d);
    x / d
  }

  lemma RightBelow(x: nat, d: nat)
    requires d > 0
    ensures x / d <= x
  {
    var q := x / d;
    if q > x { AtLeast(q, d); }
  }

  lemma {:induction false} AtLeast(q: nat, d: nat)
    requires d > 0
    ensures q * d >= q
  {
    if d > 1 {
      AtLeast(q, d-1);
      assert q * d == q * (d-1) + q;
    }
  }

  /** Exclusive or, bit by bit. */
  function XorBits(x: nat, y: nat): (r: nat)
    decreases x + y
  {
    if x == 0 && y == 0 then 0 else (x % 2 + y % 2) % 2 + 2 * XorBits(x / 2, y / 2)
  }

  function Pow2(n: nat): (r: nat)
    ensures r > 0
  {
    if n == 0 then 1 else 2 * Pow2(n-1)
  }

  lemma {:induction false} XorBelow(x: nat, y: nat, n: nat)
    requires x < Pow2(n) && y < Pow2(n)
    ensures XorBits(x, y) < Pow2(n)
    decreases n
  {
    if n > 0 { XorBelow(x / 2, y / 2, n-1); }
  }

  lemma BitTwice(x: nat, y: nat)
    ensures ((x % 2 + y % 2) % 2 + y % 2) % 2 == x % 2
  {
  }

  lemma Halves(r: nat, bit: nat)
    requires bit < 2
    ensures (bit + 2 * r) / 2 == r && (bit + 2 * r) % 2 == bit
  {
  }

  lemma XorStep(x: nat, y: nat)
    ensures XorBits(x, y) == (x % 2 + y % 2) % 2 + 2 * XorBits(x / 2, y / 2)
  {
    if x == 0 && y == 0 { assert XorBits(0, 0) == 0; }
  }

  lemma {:induction false} XorTwice(x: nat, y: nat)
    ensures XorBits(XorBits(x, y), y) == x
    decreases x + y
  {
    if x != 0 || y != 0 {
      var r, bit := XorBits(x / 2, y / 2), (x % 2 + y % 2) % 2;
      XorTwice(x / 2, y / 2);
      XorStep(x, y);
      XorStep(bit + 2 * r, y);
      Halves(r, bit);
      BitTwice(x, y);
    }
  }

  lemma Pow64()
    ensures Pow2(64) == M
  {
    assert Pow2(8) == 256;
    assert Pow2(16) == 0x1_0000;
    assert Pow2(24) == 0x100_0000;
    assert Pow2(32) == 0x1_0000_0000;
    assert Pow2(40) == 0x100_0000_0000;
    assert Pow2(48) == 0x1_0000_0000_0000;
    assert Pow2(56) == 0x100_0000_0000_0000;
  }

  function Xor(x: Word, y: Word): Word {
    Pow64();
    XorBelow(x, y, 64);
    XorBits(x, y)
  }

  // ---------- What can be undone ----------

  lemma XorUndone(x: Word, y: Word)
    ensures Xor(Xor(x, y), y) == x
  {
    XorTwice(x, y);
  }

  lemma WrapUp(x: int)
    requires 0 <= x + M && x < 0
    ensures Wrap(x) == x + M
  {
  }

  lemma WrapDown(x: int)
    requires M <= x < 2 * M
    ensures Wrap(x) == x - M
  {
  }

  lemma SubtractThenAdd(x: Word, y: Word)
    ensures Plus(Minus(x, y), y) == x
  {
    if x < y {
      var less: int := (x as int) - (y as int);
      WrapUp(less);
      WrapDown(less + M + y);
    }
  }

  lemma AddThenSubtract(x: Word, y: Word)
    ensures Minus(Plus(x, y), y) == x
  {
    if x + y >= M {
      WrapDown(x + y);
      var less: int := (x as int) - M;
      WrapUp(less);
    }
  }

  lemma SubtractAdd(x: Word, y: Word)
    ensures Plus(Minus(x, y), y) == x && Minus(Plus(x, y), y) == x
  {
    SubtractThenAdd(x, y);
    AddThenSubtract(x, y);
  }

  // ---------- Bits ----------

  function Bit(x: nat, i: nat): (b: nat)
    ensures b < 2
  {
    if i == 0 then x % 2 else Bit(x / 2, i-1)
  }

  /** p halves of a number and its last bit. */
  lemma DivideOn(x: nat, p: nat)
    requires p > 0
    ensures x / (2 * p) == x / 2 / p && x % (2 * p) == 2 * (x / 2 % p) + x % 2
  {
    var q, r := x / 2 / p, x / 2 % p;
    assert x / 2 == q * p + r;
    assert x == q * (2 * p) + (2 * r + x % 2);
    QuotientIs(x, 2 * p, q, 2 * r + x % 2);
  }

  lemma QuotientIs(x: nat, d: nat, q: nat, r: nat)
    requires d > 0 && r < d && x == q * d + r
    ensures x / d == q && x % d == r
  {
    var e := x / d - q;
    assert x == x / d * d + x % d;
    assert x / d * d == e * d + q * d;
    assert e * d == r - x % d;
    if e >= 1 { Times(1, e, d); }
    if e <= -1 { Times(e, -1, d); }
  }

  lemma Times(a: int, b: int, d: nat)
    requires a <= b
    ensures a * d <= b * d
  {
  }

  lemma {:induction false} LowBits(x: nat, k: nat, i: nat)
    requires i < k
    ensures Bit(x % Pow2(k), i) == Bit(x, i)
    decreases k
  {
    DivideOn(x, Pow2(k-1));
    if i > 0 { LowBits(x / 2, k-1, i-1); }
  }

  lemma {:induction false} NoHighBits(x: nat, k: nat, i: nat)
    requires x < Pow2(k) && k <= i
    ensures Bit(x, i) == 0
    decreases i
  {
    if i > 0 {
      if k > 0 { NoHighBits(x / 2, k-1, i-1); } else { NoHighBits(0, 0, i-1); }
    }
  }

  lemma {:induction false} ShiftUp(x: nat, n: nat, i: nat)
    ensures Bit(x * Pow2(n), i) == if i < n then 0 else Bit(x, i-n)
    decreases n
  {
    if n > 0 {
      var y := x * Pow2(n-1);
      assert x * Pow2(n) == 2 * y;
      if i > 0 { ShiftUp(x, n-1, i-1); }
    }
  }

  lemma {:induction false} ShiftDown(x: nat, n: nat, i: nat)
    ensures Bit(Quotient(x, Pow2(n)), i) == Bit(x, i+n)
    decreases n
  {
    if n > 0 {
      DivideOn(x, Pow2(n-1));
      ShiftDown(x / 2, n-1, i);
    }
  }

  /** x << n moves every bit up by n places, and those that go past the 64th are gone. */
  lemma LeftBit(x: Word, n: nat, i: nat)
    requires i < 64
    ensures Bit(Left(x, n), i) == if i < n then 0 else Bit(x, i-n)
  {
    Pow64();
    LowBits(x * Pow2(n), 64, i);
    ShiftUp(x, n, i);
  }

  /** x >> n moves every bit down by n places, with zeros from above. */
  lemma RightBit(x: Word, n: nat, i: nat)
    requires i < 64
    ensures Bit(Right(x, n), i) == if i + n < 64 then Bit(x, i+n) else 0
  {
    ShiftDown(x, n, i);
    if i + n >= 64 {
      Pow64();
      NoHighBits(x, 64, i+n);
    }
  }

  lemma {:induction false} XorBitsBit(x: nat, y: nat, i: nat)
    ensures Bit(XorBits(x, y), i) == (Bit(x, i) + Bit(y, i)) % 2
    decreases i
  {
    XorStep(x, y);
    Halves(XorBits(x / 2, y / 2), (x % 2 + y % 2) % 2);
    if i > 0 { XorBitsBit(x / 2, y / 2, i-1); }
  }

  /** x ^ y has a bit where exactly one of them has. */
  lemma XorBit(x: Word, y: Word, i: nat)
    ensures Bit(Xor(x, y), i) == (Bit(x, i) + Bit(y, i)) % 2
  {
    XorBitsBit(x, y, i);
  }

  ghost predicate SameBits(x: nat, y: nat, k: nat) {
    forall i :: 0 <= i < k ==> Bit(x, i) == Bit(y, i)
  }

  lemma {:induction false} BitsDecideBelow(x: nat, y: nat, k: nat)
    requires x < Pow2(k) && y < Pow2(k) && SameBits(x, y, k)
    ensures x == y
    decreases k
  {
    if k > 0 {
      assert Bit(x, 0) == Bit(y, 0);
      assert SameBits(x / 2, y / 2, k-1) by {
        forall i | 0 <= i < k-1 ensures Bit(x / 2, i) == Bit(y / 2, i) {
          assert Bit(x, i+1) == Bit(y, i+1);
        }
      }
      BitsDecideBelow(x / 2, y / 2, k-1);
    }
  }

  /** A word is what its bits are. */
  lemma BitsDecide(x: Word, y: Word)
    ensures x == y <==> SameBits(x, y, 64)
  {
    Pow64();
    if SameBits(x, y, 64) {
      BitsDecideBelow(x, y, 64);
    }
  }
}
