/**
 The joint invariant of the allocator's lists, and that every step keeps it.
 */
module AllocatorProperties {
  import opened Basics
  import opened AllocatorSpec

  // ---------- Sums over lists ----------

  function Sum(ls: seq<FList>, w: FList -> int): int {
    if ls == [] then 0 else w(ls[0]) + Sum(ls[1..], w)
  }

  function Length(): FList -> int { (f: FList) => |f.chain| }
  function Occurrences(x: Slot): FList -> int { (f: FList) => multiset(f.chain)[x] }
  function CarvedFrom(b: nat): FList -> int { (f: FList) => if f.block == b then 1 else 0 }

  /** A sum over all the lists there are. */
  function All(s: State, w: FList -> int): int {
    Sum(s.central, w) + Sum(s.free, w) + Sum(s.recover, w)
  }

  lemma {:induction false} SumAddLast(ls: seq<FList>, f: FList, w: FList -> int)
    ensures Sum(ls + [f], w) == Sum(ls, w) + w(f)
    decreases |ls|
  {
    if ls == [] {
      assert [f][1..] == [];
    } else {
      assert (ls + [f])[1..] == ls[1..] + [f];
      SumAddLast(ls[1..], f, w);
    }
  }

  lemma SumOne(f: FList, w: FList -> int)
    ensures Sum([f], w) == w(f)
  {
    assert [f][1..] == [];
  }

  lemma SumPutFirst(ls: seq<FList>, f: FList, w: FList -> int)
    requires ls != []
    ensures Sum(ls[0 := f], w) == w(f) + Sum(ls[1..], w)
  {
    assert ls[0 := f][1..] == ls[1..];
  }

  lemma {:induction false} SumConstant(ls: seq<FList>, w: FList -> int, n: int)
    requires forall i :: 0 <= i < |ls| ==> w(ls[i]) == n
    ensures Sum(ls, w) == |ls| * n
    decreases |ls|
  {
    if ls != [] {
      SumConstant(ls[1..], w, n);
    }
  }

  lemma {:induction false} SumAtLeast(ls: seq<FList>, w: FList -> int, i: nat)
    requires i < |ls| && forall j :: 0 <= j < |ls| ==> w(ls[j]) >= 0
    ensures Sum(ls, w) >= w(ls[i]) >= 0
    decreases |ls|
  {
    if i > 0 {
      SumAtLeast(ls[1..], w, i-1);
    } else {
      SumNonNegative(ls[1..], w);
    }
  }

  lemma {:induction false} SumNonNegative(ls: seq<FList>, w: FList -> int)
    requires forall j :: 0 <= j < |ls| ==> w(ls[j]) >= 0
    ensures Sum(ls, w) >= 0
    decreases |ls|
  {
    if ls != [] {
      SumNonNegative(ls[1..], w);
    }
  }

  // ---------- The invariant ----------

  ghost predicate Full(ls: seq<FList>, from: nat, n: nat) {
    forall i :: from <= i < |ls| ==> |ls[i].chain| == n
  }

  /** n is how many slots a block has. */
  ghost predicate Shape(n: nat, s: State) {
    && Full(s.central, 0, n)
    && Full(s.free, 1, n) && (s.free != [] ==> 0 < |s.free[0].chain| <= n)
    && Full(s.recover, 1, 0) && (s.recover != [] ==> |s.recover[0].chain| < n)
    && s.freeSize == Sum(s.free, Length()) + Sum(s.recover, Length())
    && |s.free| <= 2
    && (!s.started ==> s.free == [] && s.recover == [])
  }

  /** Every block created is the block of exactly one list. */
  ghost predicate Accounted(s: State) {
    forall b: nat :: All(s, CarvedFrom(b)) == if b < s.blocks then 1 else 0
  }

  /** x is one of the slots that the first k blocks are carved into. */
  ghost predicate IsCarved(objSize: nat, k: nat, x: Slot) {
    x.block < k && exists i: nat :: CarvedAt(objSize, i, x.offset)
  }

  ghost predicate CarvedAt(objSize: nat, i: nat, offset: nat) {
    objSize > 0 && i < InitSize(objSize) && offset == i * objSize
  }

  /** Every slot carved is in exactly one place, a caller's hands or a chain, and nothing else is anywhere. */
  ghost predicate Partition(objSize: nat, m: Machine) {
    forall x: Slot :: (if x in m.live then 1 else 0) + All(m.state, Occurrences(x)) == if IsCarved(objSize, m.state.blocks, x) then 1 else 0
  }

  /** The slots that the thread's lists do not hold are the ones in use. */
  ghost predicate Counted(n: nat, m: Machine) {
    |m.live| == (|m.state.free| + |m.state.recover|) * n - m.state.freeSize
  }

  ghost predicate Inv(objSize: nat, m: Machine) {
    && 0 < objSize <= BLOCK
    && Shape(InitSize(objSize), m.state)
    && Accounted(m.state)
    && Partition(objSize, m)
    && Counted(InitSize(objSize), m)
  }

  lemma InitInv(objSize: nat)
    requires 0 < objSize <= BLOCK
    ensures Inv(objSize, Machine(Init(), {}))
  {
    forall b: nat ensures All(Init(), CarvedFrom(b)) == 0 {
    }
    forall x: Slot ensures All(Init(), Occurrences(x)) == 0 && !IsCarved(objSize, 0, x) {
    }
  }

  lemma Scale(a: int, b: int, k: nat)
    ensures a <= b ==> a * k <= b * k
  {
  }

  lemma Quotient(a: nat, k: nat)
    requires k > 0
    ensures (a / k) * k <= a < (a / k + 1) * k
  {
  }

  /** Where n k's fit into b, and c into twice b. */
  lemma Bounds(n: nat, c: nat, b: nat, k: nat)
    requires k > 0 && n * k <= b < (n + 1) * k && c * k <= 2 * b < (c + 1) * k
    ensures n >= 1 <==> k <= b
    ensures 2 * n <= c <= 2 * n + 1
  {
    if c + 1 <= 2 * n { Scale(c + 1, 2 * n, k); }
    if 2 * n + 2 <= c { Scale(2 * n + 2, c, k); }
    if n >= 1 { Scale(1, n, k); } else { Scale(n + 1, 1, k); }
  }

  lemma BlockHasSlots(objSize: nat)
    requires 0 < objSize
    ensures InitSize(objSize) >= 1 <==> objSize <= BLOCK
    ensures 2 * InitSize(objSize) <= CollectFactor(objSize) <= 2 * InitSize(objSize) + 1
  {
    Quotient(BLOCK, objSize);
    Quotient(2 * BLOCK, objSize);
    Bounds(InitSize(objSize), CollectFactor(objSize), BLOCK, objSize);
  }

  // ---------- A new block ----------

  lemma Offsets(objSize: nat, i: nat, j: nat)
    requires i < j
    ensures i * objSize + objSize <= j * objSize
  {
    Scale(i + 1, j, objSize);
  }

  lemma NewBlock(objSize: nat, k: nat, x: Slot)
    requires 0 < objSize
    ensures (if IsCarved(objSize, k+1, x) then 1 else 0)
            == (if IsCarved(objSize, k, x) then 1 else 0) + Occurrences(x)(Carve(objSize, k))
  {
    var q := Carve(objSize, k).chain;
    forall i, j | 0 <= i < j < |q| ensures q[i] != q[j] {
      Offsets(objSize, i, j);
    }
    CountDistinct(q, x);
    assert x in q <==> x.block == k && exists i: nat :: CarvedAt(objSize, i, x.offset) by {
      if x in q {
        var i :| 0 <= i < |q| && q[i] == x;
        assert CarvedAt(objSize, i, x.offset);
      }
      if x.block == k && exists i: nat :: CarvedAt(objSize, i, x.offset) {
        var i: nat :| CarvedAt(objSize, i, x.offset);
        assert q[i] == x;
      }
    }
  }

  // ---------- Allocation ----------

  lemma NothingCached(n: nat, s: State)
    requires Shape(n, s) && s.freeSize == 0
    ensures s.free == [] && Full(s.recover, 0, 0) && Sum(s.recover, Length()) == 0
  {
    SumNonNegative(s.free, Length());
    SumNonNegative(s.recover, Length());
    if s.free != [] { SumAtLeast(s.free, Length(), 0); }
    if s.recover != [] { SumAtLeast(s.recover, Length(), 0); }
  }

  lemma RefillSum(objSize: nat, s: State, w: FList -> int)
    requires 0 < objSize
    ensures All(Refill(objSize, s), w) == All(s, w) + if s.central == [] then w(Carve(objSize, s.blocks)) else 0
  {
    SumAddLast(s.free, if s.central == [] then Carve(objSize, s.blocks) else s.central[0], w);
  }

  lemma RefillShape(objSize: nat, s: State)
    requires 0 < objSize <= BLOCK && Shape(InitSize(objSize), s) && s.freeSize == 0 && s.started
    ensures Shape(InitSize(objSize), Refill(objSize, s))
  {
    NothingCached(InitSize(objSize), s);
    BlockHasSlots(objSize);
    SumOne(Refill(objSize, s).free[0], Length());
  }

  lemma RefillAccounted(objSize: nat, s: State)
    requires 0 < objSize && Accounted(s)
    ensures Accounted(Refill(objSize, s))
  {
    var t := Refill(objSize, s);
    forall b: nat ensures All(t, CarvedFrom(b)) == if b < t.blocks then 1 else 0 {
      RefillSum(objSize, s, CarvedFrom(b));
      assert All(s, CarvedFrom(b)) == if b < s.blocks then 1 else 0;
    }
  }

  lemma RefillPartition(objSize: nat, m: Machine)
    requires 0 < objSize && Partition(objSize, m)
    ensures Partition(objSize, m.(state := Refill(objSize, m.state)))
  {
    var s := m.state;
    var t := Refill(objSize, s);
    forall x: Slot ensures (if x in m.live then 1 else 0) + All(t, Occurrences(x)) == if IsCarved(objSize, t.blocks, x) then 1 else 0 {
      RefillSum(objSize, s, Occurrences(x));
      NewBlock(objSize, s.blocks, x);
      assert (if x in m.live then 1 else 0) + All(s, Occurrences(x)) == if IsCarved(objSize, s.blocks, x) then 1 else 0;
    }
  }

  lemma OneMore(k: int, n: int)
    ensures (k + 1) * n == k * n + n
  {
  }

  lemma RefillSizes(objSize: nat, s: State)
    requires 0 < objSize && Full(s.central, 0, InitSize(objSize))
    ensures var t := Refill(objSize, s);
            |t.free| == |s.free| + 1 && t.recover == s.recover && t.freeSize == s.freeSize + InitSize(objSize)
  {
  }

  lemma RefillCount(objSize: nat, m: Machine)
    requires 0 < objSize && Shape(InitSize(objSize), m.state) && Counted(InitSize(objSize), m)
    ensures Counted(InitSize(objSize), m.(state := Refill(objSize, m.state)))
  {
    RefillSizes(objSize, m.state);
    OneMore(|m.state.free| + |m.state.recover|, InitSize(objSize));
  }

  lemma RefillInv(objSize: nat, m: Machine)
    requires Inv(objSize, m) && m.state.freeSize == 0
    ensures Inv(objSize, m.(state := Refill(objSize, m.state.(started := true))))
  {
    StartedInv(objSize, m);
    var n := m.(state := m.state.(started := true));
    RefillShape(objSize, n.state);
    RefillAccounted(objSize, n.state);
    RefillPartition(objSize, n);
    RefillCount(objSize, n);
  }

  /** _free_list is empty though something is cached: all of it is in the list at the head of _recover. */
  lemma BringBackInv(objSize: nat, m: Machine)
    requires Inv(objSize, m) && m.state.freeSize != 0 && m.state.free == []
    ensures m.state.recover != []
    ensures Inv(objSize, m.(state := m.state.(free := [m.state.recover[0]], recover := m.state.recover[1..])))
  {
    var s := m.state;
    var t := s.(free := [s.recover[0]], recover := s.recover[1..]);
    SumConstant(t.recover, Length(), 0);
    SumOne(s.recover[0], Length());
    forall b: nat ensures All(t, CarvedFrom(b)) == All(s, CarvedFrom(b)) {
      SumOne(s.recover[0], CarvedFrom(b));
    }
    forall x: Slot ensures All(t, Occurrences(x)) == All(s, Occurrences(x)) {
      SumOne(s.recover[0], Occurrences(x));
    }
  }

  /** The state in which the object is taken. */
  function Selected(objSize: nat, s: State): State
    requires 0 < objSize && (s.freeSize == 0 || s.free != [] || s.recover != [])
  {
    var t := s.(started := true);
    if s.freeSize == 0 then Refill(objSize, t)
    else if s.free != [] then t
    else t.(free := [s.recover[0]], recover := s.recover[1..])
  }

  /** Whatever is cached, a list with an object is at the head of _free_list when the object is taken from it. */
  lemma SelectedInv(objSize: nat, m: Machine)
    requires Inv(objSize, m)
    ensures m.state.freeSize == 0 ==> m.state.free == []
    ensures m.state.freeSize == 0 || m.state.free != [] || m.state.recover != []
    ensures var t := Selected(objSize, m.state);
            && Inv(objSize, m.(state := t)) && t.free != [] && t.free[0].chain != [] && t.started
            && AllocStep(objSize, m.state) == TakeFrom(t, 0)
  {
    var s := m.state;
    if s.freeSize == 0 {
      NothingCached(InitSize(objSize), s);
      RefillInv(objSize, m);
    } else if s.free == [] {
      BringBackInv(objSize, m);
      StartedInv(objSize, m.(state := s.(free := [s.recover[0]], recover := s.recover[1..])));
    } else {
      StartedInv(objSize, m);
    }
  }

  lemma StartedInv(objSize: nat, m: Machine)
    requires Inv(objSize, m)
    ensures Inv(objSize, m.(state := m.state.(started := true)))
  {
    var t := m.state.(started := true);
    assert forall w: FList -> int :: All(t, w) == All(m.state, w);
  }

  lemma TakeSum(s: State, w: FList -> int)
    requires s.free != [] && s.free[0].chain != []
    ensures var u := TakeFrom(s, 0).value.0; var f := s.free[0];
            All(u, w) == All(s, w) - w(f) + w(f.(chain := f.chain[1..]))
  {
    var f := s.free[0];
    var g := f.(chain := f.chain[1..]);
    SumPutFirst(s.free, g, w);
    SumAddLast(s.recover, g, w);
    assert s.free[0 := g][1..] == s.free[1..];
  }

  lemma TakeShape(n: nat, s: State)
    requires Shape(n, s) && s.free != [] && s.started && n >= 1
    ensures Shape(n, TakeFrom(s, 0).value.0)
  {
    var f := s.free[0];
    var g := f.(chain := f.chain[1..]);
    SumPutFirst(s.free, g, Length());
    SumAddLast(s.recover, g, Length());
    assert s.free[0 := g][1..] == s.free[1..];
  }

  /** The object taken is nobody's, and the list that it empties is the one that leaves _free_list. */
  lemma TakeInv(objSize: nat, m: Machine)
    requires Inv(objSize, m) && m.state.free != [] && m.state.started
    ensures var r := TakeFrom(m.state, 0);
            r.Some? && r.value.1 !in m.live && IsCarved(objSize, m.state.blocks, r.value.1) &&
            Inv(objSize, Machine(r.value.0, m.live + {r.value.1}))
  {
    var s := m.state;
    var f := s.free[0];
    var (u, p) := TakeFrom(s, 0).value;
    var g := f.(chain := f.chain[1..]);
    assert f.chain == [p] + g.chain;
    BlockHasSlots(objSize);
    TakeShape(InitSize(objSize), s);
    HeldOnce(objSize, m, p);
    TakeAccounted(s);
    TakePartition(objSize, m);
    TakeCount(InitSize(objSize), m);
  }

  lemma TakeCount(n: nat, m: Machine)
    requires Counted(n, m) && m.state.free != [] && m.state.free[0].chain != []
    requires m.state.free[0].chain[0] !in m.live
    ensures var (u, p) := TakeFrom(m.state, 0).value; Counted(n, Machine(u, m.live + {p}))
  {
    var u := TakeFrom(m.state, 0).value.0;
    assert |u.free| + |u.recover| == |m.state.free| + |m.state.recover|;
  }

  lemma TakeAccounted(s: State)
    requires Accounted(s) && s.free != [] && s.free[0].chain != []
    ensures Accounted(TakeFrom(s, 0).value.0)
  {
    var u := TakeFrom(s, 0).value.0;
    forall b: nat ensures All(u, CarvedFrom(b)) == All(s, CarvedFrom(b)) {
      TakeSum(s, CarvedFrom(b));
    }
  }

  lemma TakePartition(objSize: nat, m: Machine)
    requires Partition(objSize, m) && m.state.free != [] && m.state.free[0].chain != []
    requires m.state.free[0].chain[0] !in m.live
    ensures var (u, p) := TakeFrom(m.state, 0).value; Partition(objSize, Machine(u, m.live + {p}))
  {
    var s := m.state;
    var f := s.free[0];
    var (u, p) := TakeFrom(s, 0).value;
    assert f.chain == [p] + f.chain[1..];
    forall x: Slot ensures (if x in m.live + {p} then 1 else 0) + All(u, Occurrences(x)) == (if x in m.live then 1 else 0) + All(s, Occurrences(x)) {
      TakeSum(s, Occurrences(x));
    }
  }

  lemma HeldOnce(objSize: nat, m: Machine, p: Slot)
    requires Inv(objSize, m) && m.state.free != [] && p in m.state.free[0].chain
    ensures p !in m.live && IsCarved(objSize, m.state.blocks, p)
  {
    var w := Occurrences(p);
    SumAtLeast(m.state.free, w, 0);
    SumNonNegative(m.state.central, w);
    SumNonNegative(m.state.recover, w);
    assert All(m.state, w) >= 1;
  }

  lemma AllocInv(objSize: nat, m: Machine)
    requires Inv(objSize, m)
    ensures var r := AllocStep(objSize, m.state);
            r.Some? && r.value.1 !in m.live && IsCarved(objSize, r.value.0.blocks, r.value.1) &&
            Inv(objSize, Machine(r.value.0, m.live + {r.value.1}))
  {
    SelectedInv(objSize, m);
    TakeInv(objSize, m.(state := Selected(objSize, m.state)));
  }

  // ---------- Deallocation ----------

  /** The list that takes the object back: the head of _recover, or else of _free_list. */
  lemma HasRoom(objSize: nat, m: Machine)
    requires Inv(objSize, m) && m.live != {} && m.state.recover == []
    ensures m.state.free != [] && |m.state.free[0].chain| < InitSize(objSize)
  {
    var s := m.state;
    var n := InitSize(objSize);
    if s.free != [] && |s.free[0].chain| == n {
      SumConstant(s.free, Length(), n);
    }
  }

  lemma DeallocSum(objSize: nat, s: State, p: Slot, w: FList -> int)
    requires 0 < objSize && DeallocStep(objSize, s, p).Some?
    ensures var f := if s.recover != [] then s.recover[0] else s.free[0];
            All(DeallocStep(objSize, s, p).value, w) == All(s, w) - w(f) + w(f.(chain := f.chain + [p]))
  {
    var f := (if s.recover != [] then s.recover[0] else s.free[0]);
    var g := f.(chain := f.chain + [p]);
    if s.recover != [] {
      SumPutFirst(s.recover, g, w);
      SumAddLast(s.central, g, w);
      SumAddLast(s.free, g, w);
    } else {
      SumPutFirst(s.free, g, w);
    }
  }

  /** A list filled up joins _free_list only while that holds at most n slots in one list. */
  lemma FreeListShort(n: nat, s: State)
    requires Shape(n, s) && s.recover != [] && n >= 1 && s.freeSize + 1 < 2 * n + 1 && |s.recover[0].chain| == n - 1
    ensures |s.free| <= 1 && (s.free != [] ==> |s.free[0].chain| <= n)
  {
    SumConstant(s.recover[1..], Length(), 0);
    SumConstant(if s.free == [] then [] else s.free[1..], Length(), n);
    assert s.free != [] ==> Sum(s.free, Length()) == |s.free[0].chain| + (|s.free| - 1) * n;
  }

  lemma DeallocShape(objSize: nat, m: Machine, p: Slot)
    requires Inv(objSize, m) && p in m.live
    ensures var r := DeallocStep(objSize, m.state, p); r.Some? && Shape(InitSize(objSize), r.value)
  {
    var s := m.state;
    var n := InitSize(objSize);
    BlockHasSlots(objSize);
    if s.recover != [] {
      var g := s.recover[0].(chain := s.recover[0].chain + [p]);
      SumConstant(s.recover[1..], Length(), 0);
      SumPutFirst(s.recover, g, Length());
      SumAddLast(s.free, g, Length());
      if |g.chain| == n && s.freeSize + 1 < CollectFactor(objSize) {
        FreeListShort(n, s);
      }
    } else {
      HasRoom(objSize, m);
      SumPutFirst(s.free, s.free[0].(chain := s.free[0].chain + [p]), Length());
    }
  }

  lemma DeallocCount(objSize: nat, m: Machine, p: Slot)
    requires Inv(objSize, m) && p in m.live && DeallocStep(objSize, m.state, p).Some?
    ensures var u := DeallocStep(objSize, m.state, p).value;
            Counted(InitSize(objSize), Machine(u, m.live - {p}))
  {
    var s := m.state;
    var u := DeallocStep(objSize, s, p).value;
    var n := InitSize(objSize);
    var k := |s.free| + |s.recover|;
    assert |u.free| + |u.recover| == k || |u.free| + |u.recover| == k - 1;
    OneMore(k - 1, n);
  }

  lemma DeallocInv(objSize: nat, m: Machine, p: Slot)
    requires Inv(objSize, m) && p in m.live
    ensures var r := DeallocStep(objSize, m.state, p);
            r.Some? && Inv(objSize, Machine(r.value, m.live - {p}))
  {
    DeallocShape(objSize, m, p);
    DeallocCount(objSize, m, p);
    DeallocAccounted(objSize, m.state, p);
    DeallocPartition(objSize, m, p);
  }

  lemma DeallocAccounted(objSize: nat, s: State, p: Slot)
    requires 0 < objSize && Accounted(s) && DeallocStep(objSize, s, p).Some?
    ensures Accounted(DeallocStep(objSize, s, p).value)
  {
    var u := DeallocStep(objSize, s, p).value;
    forall b: nat ensures All(u, CarvedFrom(b)) == All(s, CarvedFrom(b)) {
      DeallocSum(objSize, s, p, CarvedFrom(b));
    }
  }

  lemma DeallocPartition(objSize: nat, m: Machine, p: Slot)
    requires 0 < objSize && Partition(objSize, m) && p in m.live && DeallocStep(objSize, m.state, p).Some?
    ensures Partition(objSize, Machine(DeallocStep(objSize, m.state, p).value, m.live - {p}))
  {
    var s := m.state;
    var u := DeallocStep(objSize, s, p).value;
    forall x: Slot ensures (if x in m.live - {p} then 1 else 0) + All(u, Occurrences(x)) == (if x in m.live then 1 else 0) + All(s, Occurrences(x)) {
      DeallocSum(objSize, s, p, Occurrences(x));
    }
  }

  /** All that an allocation needs to know of the lists before it follows their pointers. */
  lemma AllocReady(objSize: nat, m: Machine)
    requires Inv(objSize, m)
    ensures if m.state.freeSize == 0 then m.state.free == [] else m.state.free != [] || m.state.recover != []
    ensures var t := Selected(objSize, m.state);
            t.free != [] && t.free[0].chain != [] && t.freeSize > 0 && AllocStep(objSize, m.state) == TakeFrom(t, 0)
    ensures var r := AllocStep(objSize, m.state);
            r.Some? && r.value.1 !in m.live && Inv(objSize, Machine(r.value.0, m.live + {r.value.1}))
  {
    SelectedInv(objSize, m);
    AllocInv(objSize, m);
    var t := Selected(objSize, m.state);
    SumAtLeast(t.free, Length(), 0);
    SumNonNegative(t.recover, Length());
  }

  /** And a deallocation. */
  lemma DeallocReady(objSize: nat, m: Machine, p: Slot)
    requires Inv(objSize, m) && p in m.live
    ensures m.state.started && (m.state.recover != [] || m.state.free != [])
    ensures m.state.recover != [] ==> |m.state.recover[0].chain| <= m.state.freeSize
    ensures var r := DeallocStep(objSize, m.state, p);
            r.Some? && Inv(objSize, Machine(r.value, m.live - {p}))
  {
    DeallocInv(objSize, m, p);
    if m.state.recover != [] { SumAtLeast(m.state.recover, Length(), 0); }
    SumNonNegative(m.state.free, Length());
  }

  // ---------- Which list, exactly ----------

  /** k slots are all that a block of 2^20 bytes has. */
  ghost predicate FillsBlock(objSize: nat, k: nat) {
    k * objSize <= 1048576 < (k + 1) * objSize
  }

  /** So many cached that another object would take them past two blocks. */
  ghost predicate TwoBlocksCached(objSize: nat, cached: int) {
    (cached + 1) * objSize > 2097152
  }

  /** Block b cut into objects, in order. */
  ghost predicate IsCut(objSize: nat, b: nat, f: FList) {
    f.block == b && FillsBlock(objSize, |f.chain|) && forall i :: 0 <= i < |f.chain| ==> f.chain[i] == Slot(b, i * objSize)
  }

  /** p is the first of f, which stays before rest, or goes behind used if that was its last. */
  ghost predicate HandedFrom(f: FList, rest: seq<FList>, used: seq<FList>, p: Slot, u: State) {
    && f.chain != [] && p == f.chain[0]
    && var g := FList(f.block, f.chain[1..]);
       if |f.chain| == 1 then u.free == rest && u.recover == used + [g] else u.free == [g] + rest && u.recover == used
  }

  /**
   What an allocation makes of s, and the object p that it gives.  With nothing cached it is the first of
   the list longest in the central pool, or of a new block if that is empty; else of the head of
   _free_list, or if that is empty of the head of _recover.
   */
  ghost predicate Handed(objSize: nat, s: State, p: Slot, u: State) {
    && u.started
    && if s.freeSize == 0 && s.central == [] then
         exists f :: IsCut(objSize, s.blocks, f) && HandedFrom(f, [], s.recover, p, u) &&
                     u.blocks == s.blocks + 1 && u.central == [] && u.freeSize == |f.chain| - 1
       else
         && u.blocks == s.blocks
         && if s.freeSize == 0 then
              && u.central == s.central[1..] && u.freeSize == |s.central[0].chain| - 1
              && HandedFrom(s.central[0], [], s.recover, p, u)
            else
              && u.central == s.central && u.freeSize == s.freeSize - 1
              && if s.free != [] then HandedFrom(s.free[0], s.free[1..], s.recover, p, u)
                 else s.recover != [] && HandedFrom(s.recover[0], [], s.recover[1..], p, u)
  }

  /**
   What freeing p makes of s.  It is put at the end of the list at the head of _recover.  When that list
   is full, it goes to the central pool if two blocks' worth is cached, and to _free_list otherwise.
   With nothing in _recover the object is put at the end of the list at the head of _free_list.
   */
  ghost predicate Returned(objSize: nat, s: State, p: Slot, u: State) {
    && u.started == s.started && u.blocks == s.blocks
    && if s.recover != [] then
         var g := FList(s.recover[0].block, s.recover[0].chain + [p]);
         var full, many := FillsBlock(objSize, |g.chain|), TwoBlocksCached(objSize, s.freeSize + 1);
         && u.recover == (if full then [] else [g]) + s.recover[1..]
         && u.central == s.central + (if full && many then [g] else [])
         && u.free == s.free + (if full && !many then [g] else [])
         && u.freeSize == s.freeSize + 1 - (if full && many then |g.chain| else 0)
       else
         && s.free != [] && u.free == [FList(s.free[0].block, s.free[0].chain + [p])] + s.free[1..]
         && u.recover == [] && u.central == s.central && u.freeSize == s.freeSize + 1
  }

  lemma LeastCount(k: int, n: int, b: int, size: nat)
    requires size > 0 && n * size <= b < (n + 1) * size
    ensures k >= n <==> (k + 1) * size > b
    ensures k * size <= b < (k + 1) * size <==> k == n
  {
    if k >= n { Scale(n + 1, k + 1, size); } else { Scale(k + 1, n, size); }
    if k > n { Scale(n + 1, k, size); }
  }

  lemma BlockCounts(objSize: nat, k: nat, cached: int)
    requires 0 < objSize
    ensures FillsBlock(objSize, k) <==> k == InitSize(objSize)
    ensures TwoBlocksCached(objSize, cached) <==> cached >= CollectFactor(objSize)
  {
    Quotient(BLOCK, objSize);
    Quotient(2 * BLOCK, objSize);
    LeastCount(k, InitSize(objSize), BLOCK, objSize);
    LeastCount(cached, CollectFactor(objSize), 2 * BLOCK, objSize);
  }

  lemma PutFirst<T>(q: seq<T>, x: T)
    requires q != []
    ensures q[0 := x] == [x] + q[1..]
  {
  }

  lemma RecoverReturned(objSize: nat, s: State, p: Slot)
    requires 0 < objSize && s.started && s.recover != []
    ensures var r := DeallocStep(objSize, s, p); r.Some? && Returned(objSize, s, p, r.value)
  {
    var g := s.recover[0].(chain := s.recover[0].chain + [p]);
    BlockCounts(objSize, |g.chain|, s.freeSize + 1);
    PutFirst(s.recover, g);
  }

  lemma FreeReturned(objSize: nat, s: State, p: Slot)
    requires 0 < objSize && s.started && s.recover == [] && s.free != []
    ensures var r := DeallocStep(objSize, s, p); r.Some? && Returned(objSize, s, p, r.value)
  {
    PutFirst(s.free, s.free[0].(chain := s.free[0].chain + [p]));
  }

  lemma DeallocExact(objSize: nat, m: Machine, p: Slot)
    requires Inv(objSize, m) && p in m.live
    ensures var r := DeallocStep(objSize, m.state, p); r.Some? && Returned(objSize, m.state, p, r.value)
  {
    DeallocReady(objSize, m, p);
    if m.state.recover != [] {
      RecoverReturned(objSize, m.state, p);
    } else {
      FreeReturned(objSize, m.state, p);
    }
    ghost var returned := Returned(objSize, m.state, p, DeallocStep(objSize, m.state, p).value);
    assert returned;
  }

  lemma TakenFrom(s: State)
    requires s.free != [] && s.free[0].chain != []
    ensures var (u, p) := TakeFrom(s, 0).value;
            HandedFrom(s.free[0], s.free[1..], s.recover, p, u) && u == s.(free := u.free, recover := u.recover, freeSize := s.freeSize - 1)
  {
    var f := s.free[0];
    var g := f.(chain := f.chain[1..]);
    PutFirst(s.free, g);
    assert s.free[0 := g][1..] == s.free[1..];
  }

  lemma CarveIsCut(objSize: nat, b: nat)
    requires 0 < objSize
    ensures IsCut(objSize, b, Carve(objSize, b))
  {
    BlockCounts(objSize, InitSize(objSize), 0);
  }

  lemma AllocExact(objSize: nat, m: Machine)
    requires Inv(objSize, m)
    ensures var r := AllocStep(objSize, m.state); r.Some? && Handed(objSize, m.state, r.value.1, r.value.0)
  {
    AllocReady(objSize, m);
    var s := m.state;
    var t := Selected(objSize, s);
    TakenFrom(t);
    if s.freeSize == 0 && s.central == [] {
      CarveIsCut(objSize, s.blocks);
      assert t.free == [Carve(objSize, s.blocks)];
    } else if s.freeSize == 0 {
      assert t.free == [s.central[0]];
    }
  }

  /** The central pool gets a list exactly when a free fills it while two blocks' worth is cached; a block's worth stays. */
  lemma GivesBackIff(objSize: nat, m: Machine, p: Slot)
    requires Inv(objSize, m) && p in m.live
    ensures var s := m.state; var u := DeallocStep(objSize, s, p).value;
            && (u.central != s.central <==>
                s.recover != [] && FillsBlock(objSize, |s.recover[0].chain| + 1) && (s.freeSize + 2) * objSize > 2097152)
            && (u.central != s.central ==> (u.freeSize + 1) * objSize > 1048576)
  {
    var s := m.state;
    var u := DeallocStep(objSize, s, p).value;
    DeallocExact(objSize, m, p);
    if s.recover != [] {
      BlockCounts(objSize, |s.recover[0].chain| + 1, s.freeSize + 1);
      BlockHasSlots(objSize);
      Quotient(BLOCK, objSize);
      LeastCount(u.freeSize, InitSize(objSize), BLOCK, objSize);
    }
  }

  // ---------- Destruction ----------

  lemma {:induction false} BlockCount(ls: seq<FList>, b: nat)
    ensures multiset(BlocksOf(ls))[b] == Sum(ls, CarvedFrom(b))
    decreases |ls|
  {
    if ls != [] {
      BlockCount(ls[1..], b);
      assert BlocksOf(ls) == [ls[0].block] + BlocksOf(ls[1..]);
    }
  }

  /** The blocks that destruction frees are the ones created, each once. */
  lemma ReleasedOnce(s: State, b: nat)
    requires Accounted(s)
    ensures multiset(Released(s))[b] == if b < s.blocks then 1 else 0
  {
    BlockCount(s.central, b);
    BlockCount(s.free, b);
    BlockCount(s.recover, b);
    assert All(s, CarvedFrom(b)) == if b < s.blocks then 1 else 0;
  }

  lemma ReleasedAll(s: State)
    requires Accounted(s)
    ensures NoRepeats(Released(s)) && forall b: nat :: b in Released(s) <==> b < s.blocks
  {
    forall b: nat ensures multiset(Released(s))[b] == if b < s.blocks then 1 else 0 {
      ReleasedOnce(s, b);
    }
    OnceEach(Released(s));
    forall b: nat ensures b in Released(s) <==> b < s.blocks {
      assert b in Released(s) <==> b in multiset(Released(s));
    }
  }
}
