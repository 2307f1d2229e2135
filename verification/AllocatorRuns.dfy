/**
 The allocator over whole runs: any sequence of allocations and of frees of what is in use.
 */
module AllocatorRuns {
  import opened Basics
  import opened AllocatorSpec
  import opened AllocatorProperties

  function FromStart(objSize: nat, ops: seq<Op>): Outcome
    requires objSize > 0
  {
    Exec(objSize, Machine(Init(), {}), ops)
  }

  lemma StepInv(objSize: nat, m: Machine, op: Op)
    requires Inv(objSize, m)
    ensures var r := Step(objSize, m, op); !r.Failed? && (r.Reached? ==> Inv(objSize, r.machine))
  {
    match op
    case Alloc => AllocInv(objSize, m);
    case Free(p) => if p in m.live { DeallocInv(objSize, m, p); }
  }

  /** No run follows a null pointer or fails an assertion, and the invariant holds wherever it gets. */
  lemma {:induction false} ExecInv(objSize: nat, m: Machine, ops: seq<Op>)
    requires Inv(objSize, m)
    ensures var r := Exec(objSize, m, ops); !r.Failed? && (r.Reached? ==> Inv(objSize, r.machine))
    decreases |ops|
  {
    if ops != [] {
      StepInv(objSize, m, ops[0]);
      if Step(objSize, m, ops[0]).Reached? {
        ExecInv(objSize, Step(objSize, m, ops[0]).machine, ops[1..]);
      }
    }
  }

  /** Objects larger than a block break the allocator on the first allocation; all others never do. */
  lemma NeverFailsIff(objSize: nat)
    requires 0 < objSize
    ensures (forall ops :: !FromStart(objSize, ops).Failed?) <==> objSize <= BLOCK
  {
    var m := Machine(Init(), {});
    if objSize <= BLOCK {
      InitInv(objSize);
      forall ops ensures !FromStart(objSize, ops).Failed? {
        ExecInv(objSize, m, ops);
      }
    } else {
      BlockHasSlots(objSize);
      assert Carve(objSize, 0).chain == [];
      assert AllocStep(objSize, Init()).None?;
      var ops := [Alloc];
      assert Step(objSize, m, ops[0]).Failed?;
      assert FromStart(objSize, ops).Failed?;
    }
  }

  /** What an allocation returns was not in use, and lies in a block. */
  lemma AllocReturnsUnused(objSize: nat, ops: seq<Op>)
    requires 0 < objSize <= BLOCK && FromStart(objSize, ops).Reached?
    ensures var m := FromStart(objSize, ops).machine;
            var r := AllocStep(objSize, m.state);
            r.Some? && r.value.1 !in m.live && r.value.1.block < r.value.0.blocks && r.value.1.offset + objSize <= BLOCK
  {
    InitInv(objSize);
    ExecInv(objSize, Machine(Init(), {}), ops);
    var m := FromStart(objSize, ops).machine;
    AllocInv(objSize, m);
    CarvedFits(objSize, AllocStep(objSize, m.state).value.0.blocks, AllocStep(objSize, m.state).value.1);
  }

  lemma CarvedFits(objSize: nat, k: nat, x: Slot)
    requires 0 < objSize && IsCarved(objSize, k, x)
    ensures x.offset + objSize <= BLOCK
  {
    var i: nat :| CarvedAt(objSize, i, x.offset);
    Scale(i + 1, InitSize(objSize), objSize);
    assert InitSize(objSize) * objSize <= BLOCK;
  }

  /** No two objects in use overlap. */
  lemma NoOverlap(objSize: nat, m: Machine, x: Slot, y: Slot)
    requires Inv(objSize, m) && x in m.live && y in m.live && x != y
    ensures x.block != y.block || x.offset + objSize <= y.offset || y.offset + objSize <= x.offset
  {
    InUseIsCarved(objSize, m, x);
    InUseIsCarved(objSize, m, y);
    var i: nat :| CarvedAt(objSize, i, x.offset);
    var j: nat :| CarvedAt(objSize, j, y.offset);
    if i < j { Offsets(objSize, i, j); } else if j < i { Offsets(objSize, j, i); }
  }

  lemma NotNegative(s: State, x: Slot)
    ensures All(s, Occurrences(x)) >= 0
  {
    SumNonNegative(s.central, Occurrences(x));
    SumNonNegative(s.free, Occurrences(x));
    SumNonNegative(s.recover, Occurrences(x));
  }

  lemma InUseIsCarved(objSize: nat, m: Machine, x: Slot)
    requires Inv(objSize, m) && x in m.live
    ensures IsCarved(objSize, m.state.blocks, x)
  {
    NotNegative(m.state, x);
  }

  /** The thread's cache is bounded, and what the central pool holds is full. */
  lemma CacheBounded(objSize: nat, m: Machine)
    requires Inv(objSize, m)
    ensures var n := InitSize(objSize); var s := m.state;
            && s.freeSize < 3 * n && |s.free| <= 2
            && (forall f :: f in s.central ==> |f.chain| == n)
            && (forall f :: f in s.free + s.recover ==> |f.chain| <= n)
  {
    var n, s := InitSize(objSize), m.state;
    BlockHasSlots(objSize);
    if s.recover != [] { SumConstant(s.recover[1..], Length(), 0); }
    if s.free != [] { SumConstant(s.free[1..], Length(), n); }
    assert s.free != [] ==> Sum(s.free, Length()) == |s.free[0].chain| + (|s.free| - 1) * n;
  }

  /** Destruction frees every block that was ever created exactly once, and nothing else. */
  lemma DestroyFreesEachBlockOnce(objSize: nat, ops: seq<Op>, b: nat)
    requires 0 < objSize <= BLOCK && FromStart(objSize, ops).Reached?
    ensures var s := FromStart(objSize, ops).machine.state;
            multiset(Released(s))[b] == if b < s.blocks then 1 else 0
  {
    InitInv(objSize);
    ExecInv(objSize, Machine(Init(), {}), ops);
    ReleasedOnce(FromStart(objSize, ops).machine.state, b);
  }

  /** A block is only created when every slot of every block is in use. */
  lemma NewBlockOnlyWhenAllInUse(objSize: nat, m: Machine, x: Slot)
    requires Inv(objSize, m) && AllocStep(objSize, m.state).Some?
    requires AllocStep(objSize, m.state).value.0.blocks != m.state.blocks
    ensures m.state.central == [] && (x in m.live <==> IsCarved(objSize, m.state.blocks, x))
  {
    var s := m.state;
    if s.freeSize == 0 {
      NothingCached(InitSize(objSize), s);
      SumConstant(s.recover, Occurrences(x), 0);
      assert s.central == [] ==> All(s, Occurrences(x)) == 0;
    }
  }

  // ---------- Freeing everything ----------

  function Frees(ps: seq<Slot>): (r: seq<Op>)
    ensures |r| == |ps|
  {
    seq(|ps|, i requires 0 <= i < |ps| => Free(ps[i]))
  }

  lemma {:induction false} FreesInOrder(objSize: nat, m: Machine, ps: seq<Slot>)
    requires Inv(objSize, m) && NoRepeats(ps) && forall x :: x in m.live <==> x in ps
    ensures var r := Exec(objSize, m, Frees(ps)); r.Reached? && Inv(objSize, r.machine) && r.machine.live == {} && r.machine.state.blocks == m.state.blocks
    decreases |ps|
  {
    if ps != [] {
      DeallocExact(objSize, m, ps[0]);
      DeallocInv(objSize, m, ps[0]);
      var n := Step(objSize, m, Free(ps[0])).machine;
      assert Frees(ps)[1..] == Frees(ps[1..]);
      FreesInOrder(objSize, n, ps[1..]);
    } else {
      assert m.live == {};
    }
  }

  lemma SomethingIn(q: seq<nat>)
    ensures q != [] ==> exists b: nat :: b in q
  {
    if q != [] { assert q[0] in q; }
  }

  lemma {:induction false} CountUpTo(q: seq<nat>, n: nat)
    requires NoRepeats(q) && forall b: nat :: b in q <==> b < n
    ensures |q| == n
    decreases n
  {
    if n > 0 {
      var top: nat := n - 1;
      assert top in q;
      var i :| 0 <= i < |q| && q[i] == top;
      var p := q[..i] + q[i+1..];
      forall b: nat ensures b in p <==> b < top {
        assert b in p ==> b in q;
        if b < top {
          assert b in q;
          var j :| 0 <= j < |q| && q[j] == b;
          assert if j < i then p[j] == b else p[j-1] == b;
        }
      }
      CountUpTo(p, top);
    } else {
      SomethingIn(q);
    }
  }

  lemma ListsAreBlocks(s: State)
    requires Accounted(s)
    ensures |s.central| + |s.free| + |s.recover| == s.blocks
  {
    ReleasedAll(s);
    CountUpTo(Released(s), s.blocks);
  }

  lemma AtMostTwo(k: nat, n: nat)
    requires k * n < 3 * n
    ensures k <= 2
  {
    if k >= 3 { Scale(3, k, n); }
  }

  /**
   Freeing all that is in use, in any order, never fails.  It leaves at most two blocks with the thread;
   all the others are back, full, in the central pool.
   */
  lemma FreeingAll(objSize: nat, m: Machine, ps: seq<Slot>)
    requires Inv(objSize, m) && NoRepeats(ps) && forall x :: x in m.live <==> x in ps
    ensures var r := Exec(objSize, m, Frees(ps));
            && r.Reached? && r.machine.live == {}
            && var s := r.machine.state;
               && |s.free| + |s.recover| <= 2 && |s.central| + 2 >= m.state.blocks
               && forall f :: f in s.central ==> FillsBlock(objSize, |f.chain|)
  {
    FreesInOrder(objSize, m, ps);
    var n := Exec(objSize, m, Frees(ps)).machine;
    var s := n.state;
    CacheBounded(objSize, n);
    ListsAreBlocks(s);
    AtMostTwo(|s.free| + |s.recover|, InitSize(objSize));
    forall f | f in s.central ensures FillsBlock(objSize, |f.chain|) {
      BlockCounts(objSize, |f.chain|, 0);
    }
  }
}
