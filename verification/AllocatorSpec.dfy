/**
 src/block_obj_allocator.c without threads (mt == 0), as a state machine on values.

 A free list is the block it was carved from and the chain of free slots it holds, which may come
 from any block.  Where the source would follow a null pointer or fail its assertion, a step has
 no result.
 */
module AllocatorSpec {
  import opened Basics

  const BLOCK: nat := 1024 * 1024

  /** An object's place: the block allocated for it, and the offset in that block. */
  datatype Slot = Slot(block: nat, offset: nat)

  datatype FList = FList(block: nat, chain: seq<Slot>)

  datatype State = State(
    central: seq<FList>,   // block_obj_allocator._free_list
    started: bool,         // the thread allocator exists
    free: seq<FList>,      // thread_allocator._free_list
    recover: seq<FList>,   // thread_allocator._recover
    freeSize: int,
    blocks: nat)           // how many blocks were ever created

  function Init(): State { State([], false, [], [], 0, 0) }

  function InitSize(objSize: nat): nat
    requires objSize > 0
  {
    BLOCK / objSize
  }

  function CollectFactor(objSize: nat): nat
    requires objSize > 0
  {
    (BLOCK * 2) / objSize
  }

  /** creat_new_freelist */
  function Carve(objSize: nat, block: nat): FList
    requires objSize > 0
  {
    FList(block, seq(InitSize(objSize), i requires 0 <= i => Slot(block, i * objSize)))
  }

  /** The tail of thread_allocator_alloc, with f at place i of _free_list. */
  function TakeFrom(s: State, i: nat): Option<(State, Slot)>
    requires i < |s.free|
  {
    var f := s.free[i];
    if f.chain == [] then None
    else
      var g := f.(chain := f.chain[1..]);
      var t := s.(free := s.free[i := g], freeSize := s.freeSize - 1);
      Some((if g.chain == [] then t.(free := t.free[1..], recover := t.recover + [g]) else t, f.chain[0]))
  }

  /** A list from the central pool, or a new one, goes to the back of _free_list. */
  function Refill(objSize: nat, s: State): State
    requires objSize > 0
  {
    if s.central != [] then
      s.(central := s.central[1..], free := s.free + [s.central[0]], freeSize := s.freeSize + |s.central[0].chain|)
    else
      var f := Carve(objSize, s.blocks);
      s.(blocks := s.blocks + 1, free := s.free + [f], freeSize := s.freeSize + |f.chain|)
  }

  function AllocStep(objSize: nat, s: State): Option<(State, Slot)>
    requires objSize > 0
  {
    var t := s.(started := true);
    if s.freeSize == 0 then TakeFrom(Refill(objSize, t), |s.free|)
    else if s.free != [] then TakeFrom(t, 0)
    else if s.recover != [] then TakeFrom(t.(free := [s.recover[0]], recover := s.recover[1..]), 0)
    else None
  }

  function DeallocStep(objSize: nat, s: State, p: Slot): Option<State>
    requires objSize > 0
  {
    if !s.started then None
    else if s.recover != [] then
      var f := s.recover[0].(chain := s.recover[0].chain + [p]);
      var t := s.(freeSize := s.freeSize + 1);
      if |f.chain| != InitSize(objSize) then Some(t.(recover := s.recover[0 := f]))
      else if t.freeSize >= CollectFactor(objSize) then
        Some(t.(recover := s.recover[1..], central := s.central + [f], freeSize := t.freeSize - |f.chain|))
      else Some(t.(recover := s.recover[1..], free := s.free + [f]))
    else if s.free != [] then
      var f := s.free[0].(chain := s.free[0].chain + [p]);
      Some(s.(free := s.free[0 := f], freeSize := s.freeSize + 1))
    else None
  }

  /** The blocks that destroy_block_obj_al frees, in its order. */
  function Released(s: State): seq<nat> {
    BlocksOf(s.free) + BlocksOf(s.recover) + BlocksOf(s.central)
  }

  function BlocksOf(ls: seq<FList>): (r: seq<nat>)
    ensures |r| == |ls|
  {
    seq(|ls|, i requires 0 <= i < |ls| => ls[i].block)
  }

  // ---------- Runs ----------

  /** The allocator and, beside it, the slots its callers hold. */
  datatype Machine = Machine(state: State, live: set<Slot>)

  datatype Op = Alloc | Free(slot: Slot)

  /** Reached a machine; Refused a free of what is not live; Failed on a null pointer or an assertion. */
  datatype Outcome = Reached(machine: Machine) | Refused | Failed

  function Step(objSize: nat, m: Machine, op: Op): Outcome
    requires objSize > 0
  {
    match op
    case Alloc =>
      var r := AllocStep(objSize, m.state);
      if r.None? then Failed else Reached(Machine(r.value.0, m.live + {r.value.1}))
    case Free(p) =>
      if p !in m.live then Refused
      else
        var r := DeallocStep(objSize, m.state, p);
        if r.None? then Failed else Reached(Machine(r.value, m.live - {p}))
  }

  function Exec(objSize: nat, m: Machine, ops: seq<Op>): Outcome
    requires objSize > 0
    decreases |ops|
  {
    if ops == [] then Reached(m)
    else
      var r := Step(objSize, m, ops[0]);
      if r.Reached? then Exec(objSize, r.machine, ops[1..]) else r
  }
}
