/**
 The 64-bit hash of src/lookup8.c.  It keeps three words, takes in 24 bytes of the key at a time, and
 mixes them reversibly; so no part of a key that fits into one block is lost from the final words.
 */
module Lookup8 {
  import opened Words

  type Byte = b: nat | b < 256

  /** The words of the hash. */
  datatype Abc = Abc(a: Word, b: Word, c: Word)

  const GOLDEN: Word := 0x9e3779b97f4a7c13
  const BLOCK: nat := 24

  // ---------- Mixing ----------

  /** x -= y; x -= z; x ^= shifted. */
  function Cross(x: Word, y: Word, z: Word, shifted: Word): Word { Xor(Minus(Minus(x, y), z), shifted) }

  function Uncross(x: Word, y: Word, z: Word, shifted: Word): Word { Plus(Plus(Xor(x, shifted), z), y) }

  lemma Crossed(x: Word, y: Word, z: Word, shifted: Word)
    ensures Uncross(Cross(x, y, z, shifted), y, z, shifted) == x
  {
    var w := Minus(Minus(x, y), z);
    XorUndone(w, shifted);
    SubtractAdd(Minus(x, y), z);
    SubtractAdd(x, y);
  }

  lemma Uncrossed(x: Word, y: Word, z: Word, shifted: Word)
    ensures Cross(Uncross(x, y, z, shifted), y, z, shifted) == x
  {
    var w := Xor(x, shifted);
    SubtractAdd(Plus(w, z), y);
    SubtractAdd(w, z);
    XorUndone(x, shifted);
  }

  /** By how much the lines of mix64 shift, left where that is negative. */
  const SHIFTS: seq<int> := [43, -9, 8, 38, -23, 5, 35, -49, 11, 12, -18, 22]

  function Shifted(x: Word, n: int): Word {
    if n < 0 then Left(x, -n) else Right(x, n)
  }

  /** A line of mix64; the words then trade places, so that the next line is like it. */
  function Line(s: Abc, n: int): Abc {
    Abc(s.b, s.c, Cross(s.a, s.b, s.c, Shifted(s.c, n)))
  }

  function Unline(s: Abc, n: int): Abc {
    Abc(Uncross(s.c, s.a, s.b, Shifted(s.b, n)), s.a, s.b)
  }

  function Lines(s: Abc, shifts: seq<int>): Abc
    decreases |shifts|
  {
    if shifts == [] then s else Lines(Line(s, shifts[0]), shifts[1..])
  }

  function Unlines(s: Abc, shifts: seq<int>): Abc
    decreases |shifts|
  {
    if shifts == [] then s else Unline(Unlines(s, shifts[1..]), shifts[0])
  }

  function Mix(s: Abc): Abc { Lines(s, SHIFTS) }
  function Unmix(s: Abc): Abc { Unlines(s, SHIFTS) }

  lemma LineReversible(s: Abc, n: int)
    ensures Unline(Line(s, n), n) == s && Line(Unline(s, n), n) == s
  {
    Crossed(s.a, s.b, s.c, Shifted(s.c, n));
    Uncrossed(s.c, s.a, s.b, Shifted(s.b, n));
  }

  lemma {:induction false} LinesReversible(s: Abc, shifts: seq<int>)
    ensures Unlines(Lines(s, shifts), shifts) == s && Lines(Unlines(s, shifts), shifts) == s
    decreases |shifts|
  {
    if shifts != [] {
      LineReversible(s, shifts[0]);
      LinesReversible(Line(s, shifts[0]), shifts[1..]);
      LineReversible(Unlines(s, shifts[1..]), shifts[0]);
      LinesReversible(s, shifts[1..]);
    }
  }

  /** mix64 is a bijection. */
  lemma MixReversible(s: Abc)
    ensures Unmix(Mix(s)) == s && Mix(Unmix(s)) == s
  {
    LinesReversible(s, SHIFTS);
  }

  // ---------- mix64 by its bits ----------

  /** What a line subtracts: arithmetic modulo 2^64. */
  function Difference(s: Abc): Word { (s.a - s.b - s.c) % 0x1_0000_0000_0000_0000 }

  /** a -= b; a -= c; a ^= c >> n; and the words trade places. */
  ghost predicate ByRight(s: Abc, n: nat, t: Abc) {
    && t.a == s.b && t.b == s.c
    && forall i :: 0 <= i < 64 ==> Bit(t.c, i) == (Bit(Difference(s), i) + if i + n < 64 then Bit(s.c, i + n) else 0) % 2
  }

  /** a -= b; a -= c; a ^= c << n; and the words trade places. */
  ghost predicate ByLeft(s: Abc, n: nat, t: Abc) {
    && t.a == s.b && t.b == s.c
    && forall i :: 0 <= i < 64 ==> Bit(t.c, i) == (Bit(Difference(s), i) + if i < n then 0 else Bit(s.c, i - n)) % 2
  }

  lemma DifferenceIs(s: Abc)
    ensures Minus(Minus(s.a, s.b), s.c) == Difference(s)
  {
  }

  lemma RightLineBit(s: Abc, n: nat, i: nat)
    requires i < 64
    ensures Bit(Line(s, n).c, i) == (Bit(Difference(s), i) + if i + n < 64 then Bit(s.c, i + n) else 0) % 2
  {
    DifferenceIs(s);
    XorBit(Difference(s), Right(s.c, n), i);
    RightBit(s.c, n, i);
  }

  lemma RightByBits(s: Abc, n: nat)
    ensures ByRight(s, n, Line(s, n))
  {
    var t := Line(s, n);
    forall i | 0 <= i < 64 ensures Bit(t.c, i) == (Bit(Difference(s), i) + if i + n < 64 then Bit(s.c, i + n) else 0) % 2 {
      RightLineBit(s, n, i);
    }
  }

  lemma LeftLineBit(s: Abc, n: nat, i: nat)
    requires i < 64 && n > 0
    ensures Bit(Line(s, 0 - n).c, i) == (Bit(Difference(s), i) + if i < n then 0 else Bit(s.c, i - n)) % 2
  {
    DifferenceIs(s);
    XorBit(Difference(s), Left(s.c, n), i);
    LeftBit(s.c, n, i);
  }

  lemma LeftByBits(s: Abc, n: nat)
    requires n > 0
    ensures ByLeft(s, n, Line(s, 0 - n))
  {
    var t := Line(s, 0 - n);
    forall i | 0 <= i < 64 ensures Bit(t.c, i) == (Bit(Difference(s), i) + if i < n then 0 else Bit(s.c, i - n)) % 2 {
      LeftLineBit(s, n, i);
    }
  }

  /** The bits of a line's result leave no choice. */
  lemma OnlyRight(s: Abc, n: nat, t: Abc)
    ensures ByRight(s, n, t) <==> t == Line(s, n)
  {
    RightByBits(s, n);
    var u := Line(s, n);
    if ByRight(s, n, t) {
      assert SameBits(t.c, u.c, 64);
      BitsDecide(t.c, u.c);
    }
  }

  lemma OnlyLeft(s: Abc, n: nat, t: Abc)
    requires n > 0
    ensures ByLeft(s, n, t) <==> t == Line(s, 0 - n)
  {
    LeftByBits(s, n);
    var u := Line(s, 0 - n);
    if ByLeft(s, n, t) {
      assert SameBits(t.c, u.c, 64);
      BitsDecide(t.c, u.c);
    }
  }

  /** The twelve lines of mix64, by what they do to bits. */
  ghost predicate TwelveByBits(w: seq<Abc>) {
    && |w| == 13
    && ByRight(w[0], 43, w[1]) && ByLeft(w[1], 9, w[2]) && ByRight(w[2], 8, w[3])
    && ByRight(w[3], 38, w[4]) && ByLeft(w[4], 23, w[5]) && ByRight(w[5], 5, w[6])
    && ByRight(w[6], 35, w[7]) && ByLeft(w[7], 49, w[8]) && ByRight(w[8], 11, w[9])
    && ByRight(w[9], 12, w[10]) && ByLeft(w[10], 18, w[11]) && ByRight(w[11], 22, w[12])
  }

  ghost predicate MixedByBits(s: Abc, u: Abc) {
    exists w :: TwelveByBits(w) && w[0] == s && w[12] == u
  }

  /** w are the words before, between and after lines that shift like this. */
  ghost predicate Traces(w: seq<Abc>, shifts: seq<int>) {
    |w| == |shifts| + 1 && forall k :: 0 <= k < |shifts| ==> w[k+1] == Line(w[k], shifts[k])
  }

  lemma {:induction false} TraceFrom(s: Abc, shifts: seq<int>) returns (w: seq<Abc>)
    ensures Traces(w, shifts) && w[0] == s && w[|shifts|] == Lines(s, shifts)
    decreases |shifts|
  {
    if shifts == [] {
      w := [s];
    } else {
      var v := TraceFrom(Line(s, shifts[0]), shifts[1..]);
      w := [s] + v;
      forall k | 0 <= k < |shifts| ensures w[k+1] == Line(w[k], shifts[k]) {
        assert k > 0 ==> v[k] == Line(v[k-1], shifts[1..][k-1]);
      }
    }
  }

  lemma {:induction false} OnlyTrace(w: seq<Abc>, v: seq<Abc>, shifts: seq<int>, n: nat)
    requires Traces(w, shifts) && Traces(v, shifts) && w[0] == v[0] && n <= |shifts|
    ensures w[n] == v[n]
    decreases n
  {
    if n > 0 {
      OnlyTrace(w, v, shifts, n-1);
      assert w[n-1+1] == Line(w[n-1], shifts[n-1]) && v[n-1+1] == Line(v[n-1], shifts[n-1]);
    }
  }

  /** Each line as its bits say. */
  ghost predicate StepByBits(s: Abc, n: int, t: Abc) {
    if n < 0 then ByLeft(s, 0 - n, t) else ByRight(s, n, t)
  }

  lemma OnlyStep(s: Abc, n: int, t: Abc)
    ensures StepByBits(s, n, t) <==> t == Line(s, n)
  {
    if n < 0 { OnlyLeft(s, 0 - n, t); } else { OnlyRight(s, n, t); }
  }

  lemma PathIsTrace(w: seq<Abc>)
    ensures TwelveByBits(w) <==> Traces(w, SHIFTS)
  {
    if |w| == 13 {
      forall k | 0 <= k < 12 ensures StepByBits(w[k], SHIFTS[k], w[k+1]) <==> w[k+1] == Line(w[k], SHIFTS[k]) {
        OnlyStep(w[k], SHIFTS[k], w[k+1]);
      }
      StepsInOrder(w);
    }
  }

  lemma StepsInOrder(w: seq<Abc>)
    requires |w| == 13
    ensures TwelveByBits(w) <==> forall k :: 0 <= k < 12 ==> StepByBits(w[k], SHIFTS[k], w[k+1])
  {
    ghost var steps := seq(12, k requires 0 <= k < 12 => StepByBits(w[k], SHIFTS[k], w[k+1]));
    assert TwelveByBits(w) <==>
           steps[0] && steps[1] && steps[2] && steps[3] && steps[4] && steps[5]
           && steps[6] && steps[7] && steps[8] && steps[9] && steps[10] && steps[11];
  }

  /** Mix is what these lines do to the bits of three words. */
  lemma MixByBits(s: Abc, u: Abc)
    ensures MixedByBits(s, u) <==> u == Mix(s)
  {
    var v := TraceFrom(s, SHIFTS);
    PathIsTrace(v);
    if MixedByBits(s, u) {
      var w :| TwelveByBits(w) && w[0] == s && w[12] == u;
      PathIsTrace(w);
      OnlyTrace(w, v, SHIFTS, 12);
    }
    assert TwelveByBits(v) && v[12] == Mix(s);
  }

  /** mix64; s is what each line leaves. */
  method Mix64(a0: Word, b0: Word, c0: Word) returns (a: Word, b: Word, c: Word)
    ensures Abc(a, b, c) == Mix(Abc(a0, b0, c0)) && MixedByBits(Abc(a0, b0, c0), Abc(a, b, c))
  {
    a, b, c := a0, b0, c0;
    ghost var s := Abc(a, b, c);
    a := Minus(a, b); a := Minus(a, c); a := Xor(a, Right(c, 43));
    s := Line(s, 43); assert s == Abc(b, c, a);
    b := Minus(b, c); b := Minus(b, a); b := Xor(b, Left(a, 9));
    s := Line(s, -9); assert s == Abc(c, a, b);
    c := Minus(c, a); c := Minus(c, b); c := Xor(c, Right(b, 8));
    s := Line(s, 8); assert s == Abc(a, b, c);
    a := Minus(a, b); a := Minus(a, c); a := Xor(a, Right(c, 38));
    s := Line(s, 38); assert s == Abc(b, c, a);
    b := Minus(b, c); b := Minus(b, a); b := Xor(b, Left(a, 23));
    s := Line(s, -23); assert s == Abc(c, a, b);
    c := Minus(c, a); c := Minus(c, b); c := Xor(c, Right(b, 5));
    s := Line(s, 5); assert s == Abc(a, b, c);
    a := Minus(a, b); a := Minus(a, c); a := Xor(a, Right(c, 35));
    s := Line(s, 35); assert s == Abc(b, c, a);
    b := Minus(b, c); b := Minus(b, a); b := Xor(b, Left(a, 49));
    s := Line(s, -49); assert s == Abc(c, a, b);
    c := Minus(c, a); c := Minus(c, b); c := Xor(c, Right(b, 11));
    s := Line(s, 11); assert s == Abc(a, b, c);
    a := Minus(a, b); a := Minus(a, c); a := Xor(a, Right(c, 12));
    s := Line(s, 12); assert s == Abc(b, c, a);
    b := Minus(b, c); b := Minus(b, a); b := Xor(b, Left(a, 18));
    s := Line(s, -18); assert s == Abc(c, a, b);
    c := Minus(c, a); c := Minus(c, b); c := Xor(c, Right(b, 22));
    s := Line(s, 22); assert s == Abc(a, b, c);
    TwelveLines(Abc(a0, b0, c0));
    MixByBits(Abc(a0, b0, c0), Abc(a, b, c));
  }

  lemma TwelveLines(s: Abc)
    ensures Mix(s) == Line(Line(Line(Line(Line(Line(Line(Line(Line(Line(Line(Line(s, 43), -9), 8), 38), -23), 5), 35), -49), 11), 12), -18), 22)
  {
  }

  // ---------- Bytes ----------

  /** The number of little-endian bytes. */
  function Number(b: seq<Byte>): nat {
    if b == [] then 0 else b[0] + 256 * Number(b[1..])
  }

  function Digits(x: nat, n: nat): (b: seq<Byte>)
    ensures |b| == n
  {
    if n == 0 then [] else [x % 256] + Digits(x / 256, n-1)
  }

  lemma {:induction false} DigitsOfNumber(b: seq<Byte>)
    ensures Digits(Number(b), |b|) == b
  {
    if b != [] {
      DigitsOfNumber(b[1..]);
      assert Number(b) % 256 == b[0] && Number(b) / 256 == Number(b[1..]);
    }
  }

  lemma {:induction false} NumberOfDigits(x: nat, n: nat)
    requires x < Pow2(8 * n)
    ensures Number(Digits(x, n)) == x
    decreases n
  {
    if n > 0 {
      Pow2By256(8 * n - 8);
      NumberOfDigits(x / 256, n-1);
    }
  }

  lemma {:induction false} NumberBelow(b: seq<Byte>)
    ensures Number(b) < Pow2(8 * |b|)
  {
    if b != [] {
      NumberBelow(b[1..]);
      Pow2By256(8 * |b| - 8);
    }
  }

  lemma Pow2By256(n: nat)
    ensures Pow2(n + 8) == 256 * Pow2(n)
  {
    assert Pow2(n + 2) == 4 * Pow2(n);
    assert Pow2(n + 4) == 4 * Pow2(n + 2);
    assert Pow2(n + 6) == 4 * Pow2(n + 4);
  }

  /** What is at position i of key, or 0 past its end. */
  function At(key: seq<Byte>, i: nat): Byte {
    if i < |key| then key[i] else 0
  }

  /** Eight bytes from position i on. */
  function Eight(key: seq<Byte>, i: nat): (b: seq<Byte>)
    ensures |b| == 8
  {
    seq<Byte>(8, j requires 0 <= j => At(key, i+j))
  }

  /** Seven bytes from position i on, after a 0. */
  function Seven(key: seq<Byte>, i: nat): (b: seq<Byte>)
    ensures |b| == 8
  {
    [0] + seq<Byte>(7, j requires 0 <= j => At(key, i+j))
  }

  function Load(b: seq<Byte>): Word
    requires |b| == 8
  {
    NumberBelow(b);
    Pow64();
    Number(b)
  }

  lemma LoadUndone(b: seq<Byte>)
    requires |b| == 8
    ensures Digits(Load(b), 8) == b
  {
    DigitsOfNumber(b);
  }

  lemma LoadDone(w: Word)
    ensures Load(Digits(w, 8)) == w
  {
    Pow64();
    NumberOfDigits(w, 8);
  }

  // ---------- The hash ----------

  /** A way to mix, and to undo it. */
  datatype Mixer = Mixer(forth: Abc -> Abc, back: Abc -> Abc)

  const MIX64: Mixer := Mixer(s => Mix(s), s => Unmix(s))

  ghost predicate Undoes(m: Mixer, s: Abc) {
    m.back(m.forth(s)) == s && m.forth(m.back(s)) == s
  }

  ghost predicate Reversible(m: Mixer) {
    forall s {:trigger Undoes(m, s)} :: Undoes(m, s)
  }

  lemma Mix64Reversible()
    ensures Reversible(MIX64)
  {
    forall s ensures Undoes(MIX64, s) {
      MixReversible(s);
    }
  }

  function Added(s: Abc, block: seq<Byte>): Abc {
    Abc(Plus(s.a, Load(Eight(block, 0))), Plus(s.b, Load(Eight(block, 8))), Plus(s.c, Load(Eight(block, 16))))
  }

  /** The last bytes, with zeros after them; the low byte of c is left for the length. */
  function AddedLast(s: Abc, tail: seq<Byte>, length: nat): Abc {
    Abc(Plus(s.a, Load(Eight(tail, 0))), Plus(s.b, Load(Eight(tail, 8))), Plus(Plus(s.c, Wrap(length)), Load(Seven(tail, 16))))
  }

  function Absorb(m: Mixer, s: Abc, block: seq<Byte>): Abc {
    m.forth(Added(s, block))
  }

  function Last(m: Mixer, s: Abc, tail: seq<Byte>, length: nat): Abc {
    m.forth(AddedLast(s, tail, length))
  }

  function Finish(m: Mixer, s: Abc, key: seq<Byte>, length: nat): Abc
    decreases |key|
  {
    if |key| < BLOCK then Last(m, s, key, length) else Finish(m, Absorb(m, s, key[..BLOCK]), key[BLOCK..], length)
  }

  /** The final a, b and c. */
  function Final(m: Mixer, level: Word, key: seq<Byte>): Abc {
    Finish(m, Start(level), key, |key|)
  }

  // ---------- No funnels ----------

  function Unabsorb(m: Mixer, u: Abc, block: seq<Byte>): Abc {
    var t := m.back(u);
    Abc(Minus(t.a, Load(Eight(block, 0))), Minus(t.b, Load(Eight(block, 8))), Minus(t.c, Load(Eight(block, 16))))
  }

  /** The block that takes s to u. */
  function Between(m: Mixer, s: Abc, u: Abc): seq<Byte> {
    var t := m.back(u);
    Digits(Minus(t.a, s.a), 8) + Digits(Minus(t.b, s.b), 8) + Digits(Minus(t.c, s.c), 8)
  }

  lemma PlusIs(x: Word, y: Word, z: Word)
    ensures Plus(x, y) == z <==> x == Minus(z, y)
    ensures Plus(x, y) == z <==> y == Minus(z, x)
  {
    SubtractAdd(x, y);
    SubtractAdd(z, y);
    SubtractAdd(z, x);
    SubtractAdd(y, x);
  }

  lemma MixIs(m: Mixer, s: Abc, u: Abc)
    requires Reversible(m)
    ensures m.forth(s) == u <==> s == m.back(u)
  {
    assert Undoes(m, s) && Undoes(m, u);
  }

  lemma LoadIs(b: seq<Byte>, w: Word)
    requires |b| == 8
    ensures Load(b) == w <==> b == Digits(w, 8)
  {
    LoadUndone(b);
    LoadDone(w);
  }

  lemma AbsorbedFrom(m: Mixer, s: Abc, block: seq<Byte>, u: Abc)
    requires Reversible(m)
    ensures Absorb(m, s, block) == u <==> s == Unabsorb(m, u, block)
  {
    var t := m.back(u);
    MixIs(m, Added(s, block), u);
    PlusIs(s.a, Load(Eight(block, 0)), t.a);
    PlusIs(s.b, Load(Eight(block, 8)), t.b);
    PlusIs(s.c, Load(Eight(block, 16)), t.c);
  }

  lemma Thirds(block: seq<Byte>, x: seq<Byte>, y: seq<Byte>, z: seq<Byte>)
    requires |block| == BLOCK && |x| == |y| == |z| == 8
    ensures block == x + y + z <==> Eight(block, 0) == x && Eight(block, 8) == y && Eight(block, 16) == z
  {
    assert Eight(block, 0) == block[..8];
    assert Eight(block, 8) == block[8..16];
    assert Eight(block, 16) == block[16..];
    assert block == block[..8] + block[8..16] + block[16..];
  }

  lemma AbsorbedBlock(m: Mixer, s: Abc, block: seq<Byte>, u: Abc)
    requires Reversible(m)
    requires |block| == BLOCK
    ensures Absorb(m, s, block) == u <==> block == Between(m, s, u)
  {
    var t := m.back(u);
    MixIs(m, Added(s, block), u);
    PlusIs(s.a, Load(Eight(block, 0)), t.a);
    PlusIs(s.b, Load(Eight(block, 8)), t.b);
    PlusIs(s.c, Load(Eight(block, 16)), t.c);
    LoadIs(Eight(block, 0), Minus(t.a, s.a));
    LoadIs(Eight(block, 8), Minus(t.b, s.b));
    LoadIs(Eight(block, 16), Minus(t.c, s.c));
    Thirds(block, Digits(Minus(t.a, s.a), 8), Digits(Minus(t.b, s.b), 8), Digits(Minus(t.c, s.c), 8));
  }

  lemma LastFrom(m: Mixer, s: Abc, tail: seq<Byte>, length: nat, u: Abc)
    requires Reversible(m)
    ensures Last(m, s, tail, length) == u <==> s == Unlast(m, u, tail, length)
  {
    var t := m.back(u);
    MixIs(m, AddedLast(s, tail, length), u);
    PlusIs(s.a, Load(Eight(tail, 0)), t.a);
    PlusIs(s.b, Load(Eight(tail, 8)), t.b);
    PlusIs(Plus(s.c, Wrap(length)), Load(Seven(tail, 16)), t.c);
    PlusIs(s.c, Wrap(length), Minus(t.c, Load(Seven(tail, 16))));
  }

  function Unlast(m: Mixer, u: Abc, tail: seq<Byte>, length: nat): Abc {
    var t := m.back(u);
    Abc(Minus(t.a, Load(Eight(tail, 0))), Minus(t.b, Load(Eight(tail, 8))), Minus(Minus(t.c, Load(Seven(tail, 16))), Wrap(length)))
  }

  /** The words before key was taken in, from the final words. */
  function Unfinish(m: Mixer, u: Abc, key: seq<Byte>, length: nat): Abc
    decreases |key|
  {
    if |key| < BLOCK then Unlast(m, u, key, length) else Unabsorb(m, Unfinish(m, u, key[BLOCK..], length), key[..BLOCK])
  }

  lemma {:induction false} FinishedFrom(m: Mixer, s: Abc, key: seq<Byte>, length: nat, u: Abc)
    requires Reversible(m)
    ensures Finish(m, s, key, length) == u <==> s == Unfinish(m, u, key, length)
    decreases |key|
  {
    if |key| < BLOCK {
      LastFrom(m, s, key, length, u);
    } else {
      FinishedFrom(m, Absorb(m, s, key[..BLOCK]), key[BLOCK..], length, u);
      AbsorbedFrom(m, s, key[..BLOCK], Unfinish(m, u, key[BLOCK..], length));
    }
  }

  /** The words after the whole blocks that key is made of. */
  function Blocks(m: Mixer, s: Abc, key: seq<Byte>): Abc
    decreases |key|
  {
    if |key| < BLOCK then s else Blocks(m, Absorb(m, s, key[..BLOCK]), key[BLOCK..])
  }

  lemma BlockLess(n: nat)
    requires n % BLOCK == 0 && n != 0
    ensures n >= BLOCK && (n - BLOCK) % BLOCK == 0
  {
  }

  lemma {:induction false} FinishAfter(m: Mixer, s: Abc, p: seq<Byte>, q: seq<Byte>, length: nat)
    requires |p| % BLOCK == 0
    ensures Finish(m, s, p + q, length) == Finish(m, Blocks(m, s, p), q, length)
    decreases |p|
  {
    if p == [] {
      assert p + q == q;
    } else {
      BlockLess(|p|);
      assert (p + q)[..BLOCK] == p[..BLOCK] && (p + q)[BLOCK..] == p[BLOCK..] + q;
      FinishAfter(m, Absorb(m, s, p[..BLOCK]), p[BLOCK..], q, length);
    }
  }

  function Start(level: Word): Abc { Abc(level, level, GOLDEN) }

  lemma FinalAfter(m: Mixer, level: Word, p: seq<Byte>, q: seq<Byte>, length: nat)
    requires |p| % BLOCK == 0 && length == |p| + |q|
    ensures Final(m, level, p + q) == Finish(m, Blocks(m, Start(level), p), q, length)
  {
    assert |p + q| == length;
    FinishAfter(m, Start(level), p, q, length);
  }

  lemma FinishBlock(m: Mixer, s: Abc, x: seq<Byte>, q: seq<Byte>, length: nat)
    requires |x| == BLOCK
    ensures Finish(m, s, x + q, length) == Finish(m, Absorb(m, s, x), q, length)
  {
    assert (x + q)[..BLOCK] == x && (x + q)[BLOCK..] == q;
  }

  /** The block that, between p and q, takes level to u. */
  function OnlyBlock(m: Mixer, level: Word, p: seq<Byte>, q: seq<Byte>, u: Abc): seq<Byte> {
    Between(m, Blocks(m, Start(level), p), Unfinish(m, u, q, |p| + BLOCK + |q|))
  }

  /** No funnel anywhere in a key: given what is before and after a block, each final state comes from exactly one block. */
  lemma NoFunnelInBlock(m: Mixer, level: Word, p: seq<Byte>, x: seq<Byte>, q: seq<Byte>, u: Abc)
    requires Reversible(m)
    requires |p| % BLOCK == 0 && |x| == BLOCK
    ensures Final(m, level, p + x + q) == u <==> x == OnlyBlock(m, level, p, q, u)
  {
    var s := Blocks(m, Start(level), p);
    var n := |p| + BLOCK + |q|;
    assert p + x + q == p + (x + q);
    FinalAfter(m, level, p, x + q, n);
    FinishBlock(m, s, x, q, n);
    FinishedFrom(m, Absorb(m, s, x), q, n, u);
    AbsorbedBlock(m, s, x, Unfinish(m, u, q, n));
  }

  /** Nor in the level, so that hashes can be chained. */
  lemma NoFunnelInLevel(m: Mixer, level: Word, other: Word, key: seq<Byte>)
    requires Reversible(m)
    ensures Final(m, level, key) == Final(m, other, key) <==> level == other
  {
    FinishedFrom(m, Start(level), key, |key|, Final(m, level, key));
    FinishedFrom(m, Start(other), key, |key|, Final(m, level, key));
  }

  lemma EightApart(x: seq<Byte>, y: seq<Byte>, i: nat)
    requires Load(Eight(x, i)) == Load(Eight(y, i))
    ensures forall k :: i <= k < i + 8 ==> At(x, k) == At(y, k)
  {
    LoadUndone(Eight(x, i));
    LoadUndone(Eight(y, i));
    assert Eight(x, i) == Eight(y, i);
    forall k | i <= k < i + 8 ensures At(x, k) == At(y, k) {
      assert Eight(x, i)[k-i] == Eight(y, i)[k-i];
    }
  }

  lemma SevenApart(x: seq<Byte>, y: seq<Byte>, i: nat)
    requires Load(Seven(x, i)) == Load(Seven(y, i))
    ensures forall k :: i <= k < i + 7 ==> At(x, k) == At(y, k)
  {
    LoadUndone(Seven(x, i));
    LoadUndone(Seven(y, i));
    assert Seven(x, i) == Seven(y, i);
    forall k | i <= k < i + 7 ensures At(x, k) == At(y, k) {
      assert Seven(x, i)[k-i+1] == Seven(y, i)[k-i+1];
    }
  }

  /** The low byte of c tells tails of different lengths apart. */
  lemma LengthApart(c: Word, n: nat, i: nat, j: nat, x: seq<Byte>, y: seq<Byte>)
    requires |x| == |y| == 8 && x[0] == y[0] == 0 && i < BLOCK && j < BLOCK
    requires Minus(Minus(c, Load(x)), Wrap(n + i)) == Minus(Minus(c, Load(y)), Wrap(n + j))
    ensures i == j && Load(x) == Load(y)
  {
    var v: int, w: int := Number(x[1..]), Number(y[1..]);
    assert Load(x) == 256 * v && Load(y) == 256 * w;
    MinusWrapped(c, Load(x), n + i);
    MinusWrapped(c, Load(y), n + j);
    SameRemainder(c - 256 * v - n - i, c - 256 * w - n - j);
    SmallGap(i, j, w - v);
    SubtractAdd(Minus(c, Load(x)), Wrap(n + i));
    SubtractAdd(Minus(c, Load(y)), Wrap(n + i));
    Cancelled(c, Load(x), Load(y));
  }

  lemma Cancelled(c: Word, x: Word, y: Word)
    ensures Minus(c, x) == Minus(c, y) <==> x == y
  {
    PlusIs(x, Minus(c, x), c);
    PlusIs(y, Minus(c, x), c);
  }

  lemma SmallGap(i: nat, j: nat, d: int)
    requires i < BLOCK && j < BLOCK && (j - i + 256 * d) % 256 == 0
    ensures i == j
  {
  }

  lemma MinusWrapped(c: Word, w: Word, n: nat)
    ensures Minus(Minus(c, w), Wrap(n)) == Wrap(c - w - n)
  {
  }

  lemma SameRemainder(x: int, y: int)
    requires Wrap(x) == Wrap(y)
    ensures (x - y) % 256 == 0
  {
    var d := x / M - y / M;
    assert x - y == M * d;
    assert M * d == 256 * (0x100_0000_0000_0000 * d);
  }

  /** Nor in the last bytes: after the same whole blocks, different tails, of whatever lengths, give different final words. */
  lemma NoFunnelInTail(m: Mixer, level: Word, p: seq<Byte>, x: seq<Byte>, y: seq<Byte>)
    requires Reversible(m)
    requires |p| % BLOCK == 0 && |x| < BLOCK && |y| < BLOCK
    ensures Final(m, level, p + x) == Final(m, level, p + y) <==> x == y
  {
    var s := Blocks(m, Start(level), p);
    FinalAfter(m, level, p, x, |p| + |x|);
    FinalAfter(m, level, p, y, |p| + |y|);
    if Final(m, level, p + x) == Final(m, level, p + y) {
      LastApart(m, s, |p|, x, y);
    }
  }

  lemma UnlastApart(m: Mixer, u: Abc, x: seq<Byte>, y: seq<Byte>, n: nat)
    requires Reversible(m)
    requires |x| < BLOCK && |y| < BLOCK && Unlast(m, u, x, n + |x|) == Unlast(m, u, y, n + |y|)
    ensures |x| == |y|
    ensures Load(Eight(x, 0)) == Load(Eight(y, 0)) && Load(Eight(x, 8)) == Load(Eight(y, 8)) && Load(Seven(x, 16)) == Load(Seven(y, 16))
  {
    var t := m.back(u);
    Cancelled(t.a, Load(Eight(x, 0)), Load(Eight(y, 0)));
    Cancelled(t.b, Load(Eight(x, 8)), Load(Eight(y, 8)));
    LengthApart(t.c, n, |x|, |y|, Seven(x, 16), Seven(y, 16));
  }

  lemma LastApart(m: Mixer, s: Abc, n: nat, x: seq<Byte>, y: seq<Byte>)
    requires Reversible(m)
    requires |x| < BLOCK && |y| < BLOCK && Last(m, s, x, n + |x|) == Last(m, s, y, n + |y|)
    ensures x == y
  {
    var u := Last(m, s, x, n + |x|);
    LastFrom(m, s, x, n + |x|, u);
    LastFrom(m, s, y, n + |y|, u);
    UnlastApart(m, u, x, y, n);
    EightApart(x, y, 0);
    EightApart(x, y, 8);
    SevenApart(x, y, 16);
    forall k | 0 <= k < |x| ensures x[k] == y[k] {
      assert At(x, k) == At(y, k);
    }
  }

  /** Keys shorter than a block all differ in the final words. */
  lemma ShortKeysApart(m: Mixer, level: Word, x: seq<Byte>, y: seq<Byte>)
    requires Reversible(m)
    requires |x| < BLOCK && |y| < BLOCK
    ensures Final(m, level, x) == Final(m, level, y) <==> x == y
  {
    NoFunnelInTail(m, level, [], x, y);
    assert [] + x == x && [] + y == y;
  }

  /** So it is with mix64: equally long keys that differ in one block only, or in the last bytes only, end in different words. */
  lemma BurtleHasNoFunnels(level: Word, p: seq<Byte>, x: seq<Byte>, y: seq<Byte>, q: seq<Byte>)
    requires |p| % BLOCK == 0 && |x| == |y| && (|x| == BLOCK || (|x| < BLOCK && q == []))
    ensures Final(MIX64, level, p + x + q) == Final(MIX64, level, p + y + q) <==> x == y
  {
    Mix64Reversible();
    if |x| == BLOCK {
      NoFunnelInBlock(MIX64, level, p, x, q, Final(MIX64, level, p + x + q));
      NoFunnelInBlock(MIX64, level, p, y, q, Final(MIX64, level, p + x + q));
    } else {
      assert p + x + q == p + x && p + y + q == p + y;
      NoFunnelInTail(MIX64, level, p, x, y);
    }
  }

  // ---------- burtle_hash ----------

  function Little(x0: Byte, x1: Byte, x2: Byte, x3: Byte, x4: Byte, x5: Byte, x6: Byte, x7: Byte): Word {
    x0 + 0x100 * x1 + 0x1_0000 * x2 + 0x100_0000 * x3 + 0x1_0000_0000 * x4 + 0x100_0000_0000 * x5 + 0x1_0000_0000_0000 * x6 + 0x100_0000_0000_0000 * x7
  }

  lemma LoadIsLittle(b: seq<Byte>)
    requires |b| == 8
    ensures Load(b) == Little(b[0], b[1], b[2], b[3], b[4], b[5], b[6], b[7])
  {
    assert Number(b[7..]) == b[7];
    assert Number(b[6..]) == b[6] + 256 * Number(b[7..]);
    assert Number(b[5..]) == b[5] + 256 * Number(b[6..]);
    assert Number(b[4..]) == b[4] + 256 * Number(b[5..]);
    assert Number(b[3..]) == b[3] + 256 * Number(b[4..]);
    assert Number(b[2..]) == b[2] + 256 * Number(b[3..]);
    assert Number(b[1..]) == b[1] + 256 * Number(b[2..]);
  }

  lemma PlusMore(x: Word, y: nat, z: nat)
    requires y + z < M
    ensures Plus(Plus(x, y), z) == Plus(x, y + z)
  {
  }

  /** case i+1 of the switch: the byte at i, if there is one, is added in the place that unit gives. */
  method AddByte(k: array<Byte>, at: nat, len: nat, i: nat, unit: nat, w: Word, ghost w0: Word, ghost sum: nat) returns (r: Word, ghost more: nat)
    requires at + len <= k.Length && 0 < unit && sum + 256 * unit <= M && w == Plus(w0, sum)
    ensures more == sum + unit * At(k[at..at+len], i) && r == Plus(w0, more)
  {
    r, more := w, sum + unit * At(k[at..at+len], i);
    if len >= i + 1 {
      UnitsFit(unit, k[at+i]);
      PlusMore(w0, sum, unit * (k[at+i] as int));
      r := Plus(w, unit * (k[at+i] as int));
    }
  }

  lemma {:induction false} UnitsFit(unit: nat, b: nat)
    requires b < 256
    ensures unit * b <= 255 * unit
  {
    if b < 255 {
      assert unit * (b + 1) == unit * b + unit;
      assert (255 - b) * unit >= 0;
    }
  }

  /** The cases of the switch that add to c. */
  method TailC(k: array<Byte>, at: nat, len: nat, c0: Word) returns (c: Word)
    requires len < BLOCK && at + len <= k.Length
    ensures c == Plus(c0, Load(Seven(k[at..at+len], 16)))
  {
    ghost var tail: seq<Byte>, sum: nat := k[at..at+len], 0;
    c := c0;
    c, sum := AddByte(k, at, len, 22, 0x100_0000_0000_0000, c, c0, sum);
    c, sum := AddByte(k, at, len, 21, 0x1_0000_0000_0000, c, c0, sum);
    c, sum := AddByte(k, at, len, 20, 0x100_0000_0000, c, c0, sum);
    c, sum := AddByte(k, at, len, 19, 0x1_0000_0000, c, c0, sum);
    c, sum := AddByte(k, at, len, 18, 0x100_0000, c, c0, sum);
    c, sum := AddByte(k, at, len, 17, 0x1_0000, c, c0, sum);
    c, sum := AddByte(k, at, len, 16, 0x100, c, c0, sum);
    LoadIsLittle(Seven(tail, 16));
  }

  /** The cases of the switch that add to b. */
  method TailB(k: array<Byte>, at: nat, len: nat, b0: Word) returns (b: Word)
    requires len < BLOCK && at + len <= k.Length
    ensures b == Plus(b0, Load(Eight(k[at..at+len], 8)))
  {
    ghost var tail: seq<Byte>, sum: nat := k[at..at+len], 0;
    b := b0;
    b, sum := AddByte(k, at, len, 15, 0x100_0000_0000_0000, b, b0, sum);
    b, sum := AddByte(k, at, len, 14, 0x1_0000_0000_0000, b, b0, sum);
    b, sum := AddByte(k, at, len, 13, 0x100_0000_0000, b, b0, sum);
    b, sum := AddByte(k, at, len, 12, 0x1_0000_0000, b, b0, sum);
    b, sum := AddByte(k, at, len, 11, 0x100_0000, b, b0, sum);
    b, sum := AddByte(k, at, len, 10, 0x1_0000, b, b0, sum);
    b, sum := AddByte(k, at, len, 9, 0x100, b, b0, sum);
    b, sum := AddByte(k, at, len, 8, 1, b, b0, sum);
    LoadIsLittle(Eight(tail, 8));
  }

  /** The cases of the switch that add to a. */
  method TailA(k: array<Byte>, at: nat, len: nat, a0: Word) returns (a: Word)
    requires len < BLOCK && at + len <= k.Length
    ensures a == Plus(a0, Load(Eight(k[at..at+len], 0)))
  {
    ghost var tail: seq<Byte>, sum: nat := k[at..at+len], 0;
    a := a0;
    a, sum := AddByte(k, at, len, 7, 0x100_0000_0000_0000, a, a0, sum);
    a, sum := AddByte(k, at, len, 6, 0x1_0000_0000_0000, a, a0, sum);
    a, sum := AddByte(k, at, len, 5, 0x100_0000_0000, a, a0, sum);
    a, sum := AddByte(k, at, len, 4, 0x1_0000_0000, a, a0, sum);
    a, sum := AddByte(k, at, len, 3, 0x100_0000, a, a0, sum);
    a, sum := AddByte(k, at, len, 2, 0x1_0000, a, a0, sum);
    a, sum := AddByte(k, at, len, 1, 0x100, a, a0, sum);
    a, sum := AddByte(k, at, len, 0, 1, a, a0, sum);
    LoadIsLittle(Eight(tail, 0));
  }

  ghost predicate MixesAt(m: Mixer, s: Abc) {
    m.forth(s) == Mix(s)
  }

  ghost predicate MixesLike64(m: Mixer) {
    forall s {:trigger MixesAt(m, s)} :: MixesAt(m, s)
  }

  /** A turn of the loop. */
  method TakeBlock(k: array<Byte>, at: nat, a0: Word, b0: Word, c0: Word, ghost m: Mixer) returns (a: Word, b: Word, c: Word)
    requires at + BLOCK <= k.Length && MixesLike64(m)
    ensures Abc(a, b, c) == Absorb(m, Abc(a0, b0, c0), k[at..at+BLOCK])
  {
    ghost var block := k[at..at+BLOCK];
    LoadIsLittle(Eight(block, 0));
    LoadIsLittle(Eight(block, 8));
    LoadIsLittle(Eight(block, 16));
    a, b, c := a0, b0, c0;
    a := Plus(a, Little(k[at], k[at+1], k[at+2], k[at+3], k[at+4], k[at+5], k[at+6], k[at+7]));
    b := Plus(b, Little(k[at+8], k[at+9], k[at+10], k[at+11], k[at+12], k[at+13], k[at+14], k[at+15]));
    c := Plus(c, Little(k[at+16], k[at+17], k[at+18], k[at+19], k[at+20], k[at+21], k[at+22], k[at+23]));
    assert Abc(a, b, c) == Added(Abc(a0, b0, c0), block);
    assert MixesAt(m, Abc(a, b, c));
    a, b, c := Mix64(a, b, c);
  }

  lemma FinishTurn(m: Mixer, k: array<Byte>, at: nat, end: nat, s: Abc)
    requires at + BLOCK <= end <= k.Length
    ensures Finish(m, s, k[at..end], end) == Finish(m, Absorb(m, s, k[at..at+BLOCK]), k[at+BLOCK..end], end)
  {
    assert k[at..end] == k[at..at+BLOCK] + k[at+BLOCK..end];
    FinishBlock(m, s, k[at..at+BLOCK], k[at+BLOCK..end], end);
  }

  /** The last bytes and the length. */
  method TakeTail(k: array<Byte>, at: nat, len: nat, length: nat, a0: Word, b0: Word, c0: Word, ghost m: Mixer) returns (a: Word, b: Word, c: Word)
    requires len < BLOCK && at + len <= k.Length && MixesLike64(m)
    ensures Abc(a, b, c) == Last(m, Abc(a0, b0, c0), k[at..at+len], length)
  {
    c := Plus(c0, Wrap(length));
    c := TailC(k, at, len, c);
    b := TailB(k, at, len, b0);
    a := TailA(k, at, len, a0);
    assert Abc(a, b, c) == AddedLast(Abc(a0, b0, c0), k[at..at+len], length);
    assert MixesAt(m, Abc(a, b, c));
    a, b, c := Mix64(a, b, c);
  }

  /** burtle_hash, for any m that mixes as mix64 does. */
  method Hash(k: array<Byte>, length: nat, level: Word, ghost m: Mixer) returns (c: Word)
    requires length <= k.Length && MixesLike64(m)
    ensures c == Final(m, level, k[..length]).c
  {
    var len: nat, at: nat, a, b := length, 0, level, level;
    c := GOLDEN;
    ghost var final := Final(m, level, k[..length]);
    assert k[at..length] == k[..length];
    while len >= BLOCK
      invariant at + len == length
      invariant Finish(m, Abc(a, b, c), k[at..length], length) == final
    {
      FinishTurn(m, k, at, length, Abc(a, b, c));
      a, b, c := TakeBlock(k, at, a, b, c, m);
      at, len := at + BLOCK, len - BLOCK;
    }
    a, b, c := TakeTail(k, at, len, length, a, b, c, m);
  }

  /** burtle_hash. */
  method BurtleHash(k: array<Byte>, length: nat, level: Word) returns (c: Word)
    requires length <= k.Length
    ensures c == Final(MIX64, level, k[..length]).c
  {
    assert forall s :: MixesAt(MIX64, s);
    c := Hash(k, length, level, MIX64);
  }
}
