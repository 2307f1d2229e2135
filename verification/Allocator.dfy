/**
 src/block_obj_allocator.c with its pointers: chains threaded through the free objects, and free
 lists that move between queues.  Allocation and deallocation are proved to make the steps of
 AllocatorSpec.  link_list, the queue of lists, is a sequence: pushed at the back, popped at the front.
 */
module Allocators {
  import opened Basics
  import opened AllocatorSpec
  import AP = AllocatorProperties

  /** The first word of a free object. */
  class Node {
    const slot: Slot
    var next: Node?
    /** The free list whose chain the object is in; null while a caller has it. */
    ghost var owner: FreeList?

    constructor (slot: Slot)
      ensures this.slot == slot && owner == null
    {
      this.slot := slot;
      next, owner := null, null;
    }
  }

  /** Following next leads through the nodes of l, all different and with these slots, to end. */
  ghost predicate Chain(nodes: seq<Node>, slots: seq<Slot>, l: FreeList, end: Node?)
    reads nodes
  {
    if nodes == [] then slots == []
    else
      && slots != [] && nodes[0].slot == slots[0] && nodes[0].owner == l
      && nodes[0].next == (if |nodes| == 1 then end else nodes[1])
      && nodes[0] !in nodes[1..] && Chain(nodes[1..], slots[1..], l, end)
  }

  lemma {:induction false} ChainSplit(nodes: seq<Node>, slots: seq<Slot>, l: FreeList, end: Node?)
    requires Chain(nodes, slots, l, end) && nodes != []
    ensures |nodes| == |slots|
    ensures var k := |nodes|-1;
            Chain(nodes[..k], slots[..k], l, nodes[k]) && nodes[k].next == end && nodes[k] !in nodes[..k] &&
            nodes[k].slot == slots[k] && nodes[k].owner == l
    decreases |nodes|
  {
    if |nodes| > 1 {
      var k := |nodes|-1;
      ChainSplit(nodes[1..], slots[1..], l, end);
      assert nodes[..k][1..] == nodes[1..][..k-1] && slots[..k][1..] == slots[1..][..k-1];
    }
  }

  lemma {:induction false} ChainJoin(nodes: seq<Node>, slots: seq<Slot>, l: FreeList, p: Node, end: Node?)
    requires Chain(nodes, slots, l, p) && p.next == end && p !in nodes && p.owner == l
    ensures Chain(nodes + [p], slots + [p.slot], l, end)
    decreases |nodes|
  {
    if nodes == [] {
      assert [p][1..] == [] && [p.slot][1..] == [];
    } else {
      ChainJoin(nodes[1..], slots[1..], l, p, end);
      assert (nodes + [p])[1..] == nodes[1..] + [p] && (slots + [p.slot])[1..] == slots[1..] + [p.slot];
    }
  }

  lemma {:induction false} ChainOwned(nodes: seq<Node>, slots: seq<Slot>, l: FreeList, end: Node?, n: Node)
    requires Chain(nodes, slots, l, end) && n in nodes
    ensures n.owner == l
    decreases |nodes|
  {
    if n != nodes[0] {
      ChainOwned(nodes[1..], slots[1..], l, end, n);
    }
  }

  class FreeList {
    const initSize: nat
    const block: nat
    var size: nat
    var head: Node?
    var tail: Node?
    ghost var nodes: seq<Node>
    ghost var view: FList

    /** head leads along next through all the nodes to tail, and the nodes know it. */
    ghost predicate Chained()
      reads this, nodes
    {
      && head == (if nodes == [] then null else nodes[0])
      && tail == (if nodes == [] then null else nodes[|nodes|-1])
      && Chain(nodes, view.chain, this, null) && |view.chain| == |nodes| && view.block == block
    }

    ghost predicate Valid()
      reads this, nodes
    {
      Chained() && size == |nodes|
    }

    ghost predicate Shows(v: FList, objSize: nat)
      reads this, nodes
    {
      Valid() && view == v && objSize > 0 && initSize == InitSize(objSize)
    }

    /** creat_new_freelist */
    constructor (objSize: nat, block: nat)
      requires objSize > 0
      ensures Shows(Carve(objSize, block), objSize) && fresh(nodes)
    {
      var n := InitSize(objSize);
      initSize := n;
      this.block := block;
      size := n;
      head, tail, nodes := null, null, [];
      view := FList(block, []);
      new;
      var i := 0;
      while i < n
        invariant 0 <= i <= n == InitSize(objSize) && Chained() && |nodes| == i && fresh(nodes)
        invariant forall k :: 0 <= k < i ==> view.chain[k] == Slot(block, k * objSize)
      {
        var l := new Node(Slot(block, i * objSize));
        Put(l);
        i := i + 1;
      }
      size := n;
    }

    /** free_list_get: follows head without a test. */
    method Get() returns (p: Node)
      requires Valid() && nodes != []
      modifies this, {nodes[0]}
      ensures Valid() && p == old(nodes[0]) && nodes == old(nodes)[1..]
      ensures size == old(size) - 1 && p.owner == null
      ensures view == old(view).(chain := old(view).chain[1..]) && p.slot == old(view).chain[0]
    {
      p := head;
      head := head.next;
      if head == null {
        tail := null;
      }
      size := size - 1;
      p.owner := null;
      nodes := nodes[1..];
      view := view.(chain := view.chain[1..]);
    }

    /** The new tail p is linked behind the old one. */
    method LinkTail(p: Node)
      requires Chained() && p.owner == null
      modifies `head, `tail, p`next, (if nodes == [] then {} else {nodes[|nodes|-1]})`next
      ensures Chain(nodes, view.chain, this, p) && tail == p && p.next == null && p !in nodes
      ensures head == if nodes == [] then p else nodes[0]
    {
      if nodes != [] { ChainSplit(nodes, view.chain, this, null); }
      if p in nodes { ChainOwned(nodes, view.chain, this, null, p); }
      p.next := null;
      if tail != null {
        ghost var k := |nodes|-1;
        ghost var front, slots := nodes[..k], view.chain[..k];
        tail.next := p;
        ChainJoin(front, slots, this, tail, p);
        assert front + [tail] == nodes && slots + [tail.slot] == view.chain;
        tail := p;
      } else {
        head, tail := p, p;
      }
    }

    /** free_list_put */
    method Put(p: Node)
      requires Chained() && p.owner == null
      modifies this, p, (if nodes == [] then {} else {nodes[|nodes|-1]})`next
      ensures Chained() && nodes == old(nodes) + [p] && size == old(size) + 1
      ensures view == old(view).(chain := old(view).chain + [p.slot]) && p.owner == this
    {
      LinkTail(p);
      size := size + 1;
      p.owner := this;
      ChainJoin(nodes, view.chain, this, p, null);
      nodes := nodes + [p];
      view := view.(chain := view.chain + [p.slot]);
    }
  }

  /** The lists of a queue are different, well-formed chains showing vs. */
  ghost predicate Queued(ls: seq<FreeList>, vs: seq<FList>, repr: set<object>, objSize: nat)
    reads repr
  {
    && |ls| == |vs|
    && (forall l: FreeList :: l in ls ==> l in repr && forall n: Node :: n in l.nodes ==> n in repr)
    && (forall i :: 0 <= i < |ls| ==> ls[i].Shows(vs[i], objSize))
    && (forall i, j :: 0 <= i < j < |ls| ==> ls[i] != ls[j])
  }

  ghost predicate Apart(a: seq<FreeList>, b: seq<FreeList>) {
    forall l: FreeList :: l in a ==> l !in b
  }

  lemma QueuedFirst(ls: seq<FreeList>, vs: seq<FList>, repr: set<object>, objSize: nat)
    requires Queued(ls, vs, repr, objSize) && ls != []
    ensures Queued(ls[1..], vs[1..], repr, objSize) && Queued([ls[0]], [vs[0]], repr, objSize) && ls[0] !in ls[1..]
    ensures ls[0].Shows(vs[0], objSize)
  {
  }

  lemma QueuedLast(ls: seq<FreeList>, vs: seq<FList>, l: FreeList, v: FList, repr: set<object>, objSize: nat)
    requires Queued(ls, vs, repr, objSize) && Queued([l], [v], repr, objSize) && l !in ls
    ensures Queued(ls + [l], vs + [v], repr, objSize)
  {
    assert l in [l];
    assert [l][0].Shows([v][0], objSize);
  }

  lemma QueuedMore(ls: seq<FreeList>, vs: seq<FList>, repr: set<object>, more: set<object>, objSize: nat)
    requires Queued(ls, vs, repr, objSize) && repr <= more
    ensures Queued(ls, vs, more, objSize)
  {
  }

  lemma QueuedJoin(a: seq<FreeList>, va: seq<FList>, b: seq<FreeList>, vb: seq<FList>, repr: set<object>, objSize: nat)
    requires Queued(a, va, repr, objSize) && Queued(b, vb, repr, objSize) && Apart(a, b)
    ensures Queued(a + b, va + vb, repr, objSize)
  {
  }

  lemma QueuedSplit(a: seq<FreeList>, va: seq<FList>, b: seq<FreeList>, vb: seq<FList>, repr: set<object>, objSize: nat)
    requires Queued(a + b, va + vb, repr, objSize) && |a| == |va|
    ensures Queued(a, va, repr, objSize) && Queued(b, vb, repr, objSize)
  {
    forall i | 0 <= i < |a| ensures a[i].Shows(va[i], objSize) {
      assert (a + b)[i].Shows((va + vb)[i], objSize);
    }
    forall i | 0 <= i < |b| ensures b[i].Shows(vb[i], objSize) {
      assert (a + b)[|a|+i].Shows((va + vb)[|a|+i], objSize);
    }
    assert forall l :: l in a || l in b ==> l in a + b;
    forall i, j | 0 <= i < j < |b| ensures b[i] != b[j] {
      assert (a + b)[|a|+i] != (a + b)[|a|+j];
    }
    forall i, j | 0 <= i < j < |a| ensures a[i] != a[j] {
      assert (a + b)[i] != (a + b)[j];
    }
  }

  /** A node that no list of a queue owns is in none of their chains. */
  lemma Foreign(ls: seq<FreeList>, vs: seq<FList>, repr: set<object>, objSize: nat, p: Node)
    requires Queued(ls, vs, repr, objSize) && (forall l :: l in ls ==> p.owner != l)
    ensures forall l: FreeList :: l in ls ==> p !in l.nodes
  {
    forall l: FreeList | l in ls ensures p !in l.nodes {
      var i :| 0 <= i < |ls| && ls[i] == l;
      assert ls[i].Shows(vs[i], objSize);
      if p in l.nodes { ChainOwned(l.nodes, l.view.chain, l, null, p); }
    }
  }

  /** free_list_get on the list at the head of a queue */
  method GetFromFirst(f: FreeList, ghost ls: seq<FreeList>, ghost vs: seq<FList>, ghost repr: set<object>, ghost objSize: nat) returns (p: Node)
    requires Queued(ls, vs, repr, objSize) && ls != [] && ls[0] == f && f.nodes != []
    modifies f, {f.nodes[0]}
    ensures p == old(f.nodes[0]) && p.owner == null
    ensures f.view == vs[0].(chain := vs[0].chain[1..]) && f.size == |f.view.chain|
    ensures Queued(ls, vs[0 := f.view], repr, objSize)
    ensures p.slot == vs[0].chain[0] && p in repr
  {
    QueuedFirst(ls, vs, repr, objSize);
    Foreign(ls[1..], vs[1..], repr, objSize, f.nodes[0]);
    p := f.Get();
    assert f.Shows(f.view, objSize);
    forall i | 1 <= i < |ls| ensures ls[i].Shows(vs[i], objSize) {
      assert ls[i] != f && ls[i] in ls[1..];
      var shows := ls[i].Shows(vs[i], objSize);
      assert shows;
    }
  }

  /** free_list_put on the list at the head of a queue */
  method PutIntoFirst(f: FreeList, ghost ls: seq<FreeList>, ghost vs: seq<FList>, ghost repr: set<object>, ghost objSize: nat, p: Node)
    requires Queued(ls, vs, repr, objSize) && ls != [] && ls[0] == f && p.owner == null && p in repr
    modifies f, p, (if f.nodes == [] then {} else {f.nodes[|f.nodes|-1]})`next
    ensures f.view == vs[0].(chain := vs[0].chain + [p.slot]) && f.size == |f.view.chain|
    ensures Queued(ls, vs[0 := f.view], repr, objSize)
    ensures p.owner == f
  {
    QueuedFirst(ls, vs, repr, objSize);
    Foreign(ls[1..], vs[1..], repr, objSize, p);
    if f.nodes != [] {
      ChainSplit(f.nodes, f.view.chain, f, null);
      Foreign(ls[1..], vs[1..], repr, objSize, f.nodes[|f.nodes|-1]);
    }
    f.Put(p);
    assert f.Shows(f.view, objSize);
    forall i | 1 <= i < |ls| ensures ls[i].Shows(vs[i], objSize) {
      assert ls[i] != f && ls[i] in ls[1..];
      var shows := ls[i].Shows(vs[i], objSize);
      assert shows;
    }
  }

  /** The same with two more queues beside it, which are left alone. */
  method GetBeside(f: FreeList, ghost ls: seq<FreeList>, ghost vs: seq<FList>, ghost a: seq<FreeList>, ghost va: seq<FList>,
                   ghost b: seq<FreeList>, ghost vb: seq<FList>, ghost repr: set<object>, ghost objSize: nat) returns (p: Node)
    requires Queued(ls, vs, repr, objSize) && Queued(a, va, repr, objSize) && Queued(b, vb, repr, objSize)
    requires Apart(a, b) && Apart(ls, a) && Apart(ls, b)
    requires ls != [] && ls[0] == f && f.nodes != []
    modifies f, {f.nodes[0]}
    ensures p == old(f.nodes[0]) && p.owner == null && p.slot == vs[0].chain[0] && p in repr
    ensures f.view == vs[0].(chain := vs[0].chain[1..]) && f.size == |f.view.chain|
    ensures Queued(ls, vs[0 := f.view], repr, objSize) && Queued(a, va, repr, objSize) && Queued(b, vb, repr, objSize)
  {
    QueuedJoin(a, va, b, vb, repr, objSize);
    QueuedJoin(ls, vs, a + b, va + vb, repr, objSize);
    p := GetFromFirst(f, ls + (a + b), vs + (va + vb), repr, objSize);
    assert (vs + (va + vb))[0 := f.view] == vs[0 := f.view] + (va + vb);
    QueuedSplit(ls, vs[0 := f.view], a + b, va + vb, repr, objSize);
    QueuedSplit(a, va, b, vb, repr, objSize);
    ghost var queued := Queued(ls, vs[0 := f.view], repr, objSize) && Queued(a, va, repr, objSize) && Queued(b, vb, repr, objSize);
    assert queued;
  }

  method PutBeside(f: FreeList, ghost ls: seq<FreeList>, ghost vs: seq<FList>, ghost a: seq<FreeList>, ghost va: seq<FList>,
                   ghost b: seq<FreeList>, ghost vb: seq<FList>, ghost repr: set<object>, ghost objSize: nat, p: Node)
    requires Queued(ls, vs, repr, objSize) && Queued(a, va, repr, objSize) && Queued(b, vb, repr, objSize)
    requires Apart(a, b) && Apart(ls, a) && Apart(ls, b)
    requires ls != [] && ls[0] == f && p.owner == null && p in repr
    modifies f, p, (if f.nodes == [] then {} else {f.nodes[|f.nodes|-1]})`next
    ensures f.view == vs[0].(chain := vs[0].chain + [p.slot]) && f.size == |f.view.chain|
    ensures Queued(ls, vs[0 := f.view], repr, objSize) && Queued(a, va, repr, objSize) && Queued(b, vb, repr, objSize)
  {
    QueuedJoin(a, va, b, vb, repr, objSize);
    QueuedJoin(ls, vs, a + b, va + vb, repr, objSize);
    PutIntoFirst(f, ls + (a + b), vs + (va + vb), repr, objSize, p);
    assert (vs + (va + vb))[0 := f.view] == vs[0 := f.view] + (va + vb);
    QueuedSplit(ls, vs[0 := f.view], a + b, va + vb, repr, objSize);
    QueuedSplit(a, va, b, vb, repr, objSize);
    ghost var queued := Queued(ls, vs[0 := f.view], repr, objSize) && Queued(a, va, repr, objSize) && Queued(b, vb, repr, objSize);
    assert queued;
  }

  method NewFreeList(objSize: nat, block: nat) returns (f: FreeList, ghost added: set<object>)
    requires objSize > 0
    ensures fresh(added) && f in added && f.view == Carve(objSize, block) && f.size == |f.view.chain|
    ensures Queued([f], [f.view], added, objSize)
  {
    f := new FreeList(objSize, block);
    added := {f};
    added := added + set n | n in f.nodes;
    assert [f][0].Shows(f.view, objSize);
  }

  ghost function SlotsIn(nodes: set<Node>): set<Slot> {
    set n | n in nodes :: n.slot
  }

  ghost predicate OneNodeEach(nodes: set<Node>) {
    forall n: Node, k: Node :: n in nodes && k in nodes && n.slot == k.slot ==> n == k
  }

  lemma SlotsInAdd(nodes: set<Node>, p: Node)
    ensures SlotsIn(nodes + {p}) == SlotsIn(nodes) + {p.slot}
    ensures OneNodeEach(nodes) && p.slot !in SlotsIn(nodes) ==> OneNodeEach(nodes + {p})
  {
  }

  lemma SlotsInRemove(nodes: set<Node>, p: Node)
    requires OneNodeEach(nodes) && p in nodes
    ensures p.slot in SlotsIn(nodes) && SlotsIn(nodes - {p}) == SlotsIn(nodes) - {p.slot}
  {
  }

  // ---------- Destruction ----------

  /** free of a block, which must be allocated; mem are the blocks that are. */
  method FreeBlock(mem: set<nat>, block: nat) returns (left: set<nat>)
    requires block in mem
    ensures left == mem - {block}
  {
    left := mem - {block};
  }

  /** release_freelist: frees the block of every list of a queue. */
  method ReleaseFreeList(ls: seq<FreeList>, ghost vs: seq<FList>, ghost repr: set<object>, ghost objSize: nat, mem: set<nat>) returns (left: set<nat>)
    requires Queued(ls, vs, repr, objSize)
    requires NoRepeats(BlocksOf(vs)) && forall b :: b in BlocksOf(vs) ==> b in mem
    ensures left == mem - set b | b in BlocksOf(vs)
  {
    left := mem;
    var i := 0;
    while i < |ls|
      invariant 0 <= i <= |ls|
      invariant left == mem - set b | b in BlocksOf(vs)[..i]
    {
      assert ls[i].Shows(vs[i], objSize);
      assert BlocksOf(vs)[i] == ls[i].block && BlocksOf(vs)[..i+1] == BlocksOf(vs)[..i] + [ls[i].block];
      left := FreeBlock(left, ls[i].block);
      i := i + 1;
    }
  }

  /** The object is taken, and then the list moves if it ran out. */
  lemma TakenBySteps(s: State)
    requires s.free != [] && s.free[0].chain != []
    ensures var f := s.free[0];
            var t := s.(free := s.free[0 := f.(chain := f.chain[1..])], freeSize := s.freeSize - 1);
            TakeFrom(s, 0) == Some((if |t.free[0].chain| == 0 then t.(free := t.free[1..], recover := t.recover + [t.free[0]]) else t, f.chain[0]))
  {
  }

  /** struct block_obj_allocator with its one thread_allocator. */
  class BlockObjAllocator {
    const objSize: nat
    var central: seq<FreeList>
    var started: bool
    var free: seq<FreeList>
    var recover: seq<FreeList>
    var freeSize: nat
    var blocks: nat
    /** The objects callers have. */
    ghost var live: set<Node>
    /** The lists, their nodes and the callers' objects. */
    ghost var repr: set<object>
    /** All this as the values of AllocatorSpec. */
    ghost var state: State

    ghost function Holding(): Machine
      reads this
    {
      Machine(state, SlotsIn(live))
    }

    ghost predicate Linked()
      reads this, repr
    {
      && objSize > 0 && this !in repr
      && Queued(central, state.central, repr, objSize)
      && Queued(free, state.free, repr, objSize)
      && Queued(recover, state.recover, repr, objSize)
      && Apart(central, free) && Apart(central, recover) && Apart(free, recover)
      && (forall n: Node :: n in live ==> n in repr && n.owner == null)
      && state.started == started && state.freeSize == freeSize && state.blocks == blocks
    }

    ghost predicate Valid()
      reads this, repr
    {
      && Linked()
      && AP.Inv(objSize, Holding())
      && OneNodeEach(live)
    }

    constructor (objSize: nat)
      requires 0 < objSize <= BLOCK
      ensures Valid() && state == Init() && live == {} && this.objSize == objSize && fresh(repr)
    {
      this.objSize := objSize;
      central, started, free, recover, freeSize, blocks := [], false, [], [], 0, 0;
      live, repr, state := {}, {}, Init();
      new;
      AP.InitInv(objSize);
      assert Holding() == Machine(Init(), {});
      ghost var kept := AP.Inv(objSize, Holding());
      assert kept;
    }

    /** Lists are pushed and popped. */
    method Rearrange(c: seq<FreeList>, f: seq<FreeList>, r: seq<FreeList>, size: nat, ghost s: State)
      requires objSize > 0 && this !in repr
      requires Queued(c, s.central, repr, objSize) && Queued(f, s.free, repr, objSize) && Queued(r, s.recover, repr, objSize)
      requires Apart(c, f) && Apart(c, r) && Apart(f, r)
      requires forall n: Node :: n in live ==> n in repr && n.owner == null
      requires s.started == started && s.freeSize == size && s.blocks == blocks
      modifies `central, `free, `recover, `freeSize, `state
      ensures Linked() && central == c && free == f && recover == r && freeSize == size && state == s
    {
      central, free, recover, freeSize := c, f, r, size;
      state := s;
      ghost var queued := Queued(c, s.central, repr, objSize) && Queued(f, s.free, repr, objSize) && Queued(r, s.recover, repr, objSize);
      assert queued;
    }

    /** The list at the head of the central pool moves to _free_list. */
    method FromCentral()
      requires Linked() && central != [] && free == []
      modifies this
      ensures Linked() && live == old(live) && repr == old(repr)
      ensures state == Refill(objSize, old(state))
    {
      QueuedFirst(central, state.central, repr, objSize);
      var f := central[0];
      assert free + [f] == [f];
      Rearrange(central[1..], free + [f], recover, freeSize + f.size, Refill(objSize, state));
    }

    method FromNewBlock()
      requires Linked() && central == [] && free == []
      modifies this
      ensures Linked() && live == old(live) && fresh(repr - old(repr))
      ensures state == Refill(objSize, old(state))
    {
      var f, added := NewFreeList(objSize, blocks);
      QueuedMore(recover, state.recover, repr, repr + added, objSize);
      QueuedMore([f], [f.view], added, repr + added, objSize);
      Adopt(f, added);
    }

    method Adopt(f: FreeList, ghost added: set<object>)
      requires Linked() && central == [] && free == [] && f !in recover && this !in added
      requires f.view == Carve(objSize, blocks) && f.size == |f.view.chain|
      requires Queued(recover, state.recover, repr + added, objSize) && Queued([f], [f.view], repr + added, objSize)
      modifies this
      ensures Linked() && live == old(live) && repr == old(repr) + added
      ensures state == Refill(objSize, old(state))
    {
      blocks := blocks + 1;
      repr := repr + added;
      free := free + [f];
      assert free == [f];
      freeSize := freeSize + f.size;
      state := Refill(objSize, state);
    }

    method FromRecover()
      requires Linked() && recover != [] && free == []
      modifies this
      ensures Linked() && live == old(live) && repr == old(repr)
      ensures state == old(state).(free := [old(state).recover[0]], recover := old(state).recover[1..])
    {
      QueuedFirst(recover, state.recover, repr, objSize);
      var f := recover[0];
      assert free + [f] == [f];
      Rearrange(central, free + [f], recover[1..], freeSize, state.(free := [state.recover[0]], recover := state.recover[1..]));
    }

    /** Which list an allocation takes from: afterwards it is at the head of _free_list. */
    method Select()
      requires Linked()
      requires if freeSize == 0 then free == [] else free != [] || recover != []
      modifies this
      ensures Linked() && live == old(live) && fresh(repr - old(repr))
      ensures state == AP.Selected(objSize, old(state))
    {
      started := true;
      state := state.(started := true);
      if freeSize == 0 {
        if central != [] {
          FromCentral();
        } else {
          FromNewBlock();
        }
      } else if free == [] {
        FromRecover();
      }
    }

    method Settle(size: nat, ghost s: State, ghost held: set<Node>)
      requires objSize > 0 && this !in repr
      requires Queued(central, s.central, repr, objSize) && Queued(free, s.free, repr, objSize) && Queued(recover, s.recover, repr, objSize)
      requires Apart(central, free) && Apart(central, recover) && Apart(free, recover)
      requires forall n: Node :: n in held ==> n in repr && n.owner == null
      requires s.started == started && s.freeSize == size && s.blocks == blocks
      modifies `freeSize, `state, `live
      ensures Linked() && freeSize == size && state == s && live == held
    {
      freeSize := size;
      state := s;
      live := held;
      ghost var queued := Queued(central, s.central, repr, objSize) && Queued(free, s.free, repr, objSize) && Queued(recover, s.recover, repr, objSize);
      assert queued;
    }

    /** The first object of the list at the head of _free_list. */
    method TakeFirst() returns (p: Node)
      requires Linked() && free != [] && state.free[0].chain != [] && freeSize > 0
      modifies this, repr
      ensures Linked() && repr == old(repr) && p !in old(live) && live == old(live) + {p} && free == old(free)
      ensures p.slot == old(state).free[0].chain[0]
      ensures var f := old(state).free[0];
              state == old(state).(free := old(state).free[0 := f.(chain := f.chain[1..])], freeSize := freeSize)
      ensures freeSize == old(freeSize) - 1 && free[0].size == |state.free[0].chain|
    {
      QueuedFirst(free, state.free, repr, objSize);
      p := GetBeside(free[0], free, state.free, central, state.central, recover, state.recover, repr, objSize);
      ghost var v := free[0].view;
      Settle(freeSize - 1, state.(free := state.free[0 := v], freeSize := freeSize - 1), live + {p});
    }

    /** A list at the head of _free_list that ran out joins the back of _recover. */
    method Retire()
      requires Linked() && free != []
      modifies this
      ensures Linked() && repr == old(repr) && live == old(live)
      ensures state == old(state).(free := old(state).free[1..], recover := old(state).recover + [old(state).free[0]])
    {
      ghost var s := state;
      var f := free[0];
      QueuedFirst(free, s.free, repr, objSize);
      QueuedLast(recover, s.recover, f, s.free[0], repr, objSize);
      Rearrange(central, free[1..], recover + [f], freeSize, s.(free := s.free[1..], recover := s.recover + [s.free[0]]));
    }

    /** thread_allocator_alloc, but for what the invariant makes of it */
    method AllocLinked() returns (p: Node)
      requires Linked()
      requires if freeSize == 0 then free == [] else free != [] || recover != []
      requires var t := AP.Selected(objSize, state); t.free != [] && t.free[0].chain != [] && t.freeSize > 0
      modifies this, repr
      ensures Linked() && fresh(repr - old(repr)) && p !in old(live) && live == old(live) + {p}
      ensures TakeFrom(AP.Selected(objSize, old(state)), 0) == Some((state, p.slot))
    {
      Select();
      ghost var t := state;
      p := TakeFirst();
      TakenBySteps(t);
      if free[0].size == 0 {
        Retire();
      }
    }

    method Alloc() returns (p: Node)
      requires Valid()
      modifies this, repr
      ensures Valid() && fresh(repr - old(repr))
      ensures p !in old(live) && live == old(live) + {p}
      ensures AllocStep(objSize, old(state)) == Some((state, p.slot)) && AP.Handed(objSize, old(state), p.slot, state)
    {
      ghost var was := live;
      AP.AllocReady(objSize, Holding());
      AP.AllocExact(objSize, Holding());
      p := AllocLinked();
      SlotsInAdd(was, p);
      ghost var kept := AP.Inv(objSize, Holding());
      assert kept;
    }

    /** The object goes to the end of the list at the head of _recover. */
    method PutInRecover(p: Node)
      requires Linked() && recover != [] && p in live
      modifies this, repr
      ensures Linked() && repr == old(repr) && live == old(live) - {p} && recover == old(recover)
      ensures var f := old(state).recover[0];
              state == old(state).(recover := old(state).recover[0 := f.(chain := f.chain + [p.slot])], freeSize := freeSize)
      ensures freeSize == old(freeSize) + 1 && recover[0].size == |state.recover[0].chain| && recover[0].initSize == InitSize(objSize)
    {
      QueuedFirst(recover, state.recover, repr, objSize);
      PutBeside(recover[0], recover, state.recover, central, state.central, free, state.free, repr, objSize, p);
      ghost var v := recover[0].view;
      Settle(freeSize + 1, state.(recover := state.recover[0 := v], freeSize := freeSize + 1), live - {p});
    }

    /** With nothing in _recover, to the end of the list at the head of _free_list. */
    method PutInFree(p: Node)
      requires Linked() && free != [] && p in live
      modifies this, repr
      ensures Linked() && repr == old(repr) && live == old(live) - {p}
      ensures var f := old(state).free[0];
              state == old(state).(free := old(state).free[0 := f.(chain := f.chain + [p.slot])], freeSize := old(state).freeSize + 1)
    {
      QueuedFirst(free, state.free, repr, objSize);
      PutBeside(free[0], free, state.free, central, state.central, recover, state.recover, repr, objSize, p);
      ghost var v := free[0].view;
      Settle(freeSize + 1, state.(free := state.free[0 := v], freeSize := freeSize + 1), live - {p});
    }

    /** The list at the head of _recover, full again, goes back to the central pool. */
    method GiveBack()
      requires Linked() && recover != [] && recover[0].size <= freeSize
      modifies this
      ensures Linked() && repr == old(repr) && live == old(live)
      ensures var s := old(state);
              state == s.(recover := s.recover[1..], central := s.central + [s.recover[0]], freeSize := s.freeSize - |s.recover[0].chain|)
    {
      ghost var s := state;
      var f := recover[0];
      QueuedFirst(recover, s.recover, repr, objSize);
      QueuedLast(central, s.central, f, s.recover[0], repr, objSize);
      Rearrange(central + [f], free, recover[1..], freeSize - f.size,
                s.(recover := s.recover[1..], central := s.central + [s.recover[0]], freeSize := freeSize - f.size));
    }

    /** The list at the head of _recover, full again, goes to the back of _free_list. */
    method Keep()
      requires Linked() && recover != []
      modifies this
      ensures Linked() && repr == old(repr) && live == old(live)
      ensures var s := old(state); state == s.(recover := s.recover[1..], free := s.free + [s.recover[0]])
    {
      ghost var s := state;
      var f := recover[0];
      QueuedFirst(recover, s.recover, repr, objSize);
      QueuedLast(free, s.free, f, s.recover[0], repr, objSize);
      Rearrange(central, free + [f], recover[1..], freeSize, s.(recover := s.recover[1..], free := s.free + [s.recover[0]]));
    }

    /** thread_allocator_dealloc, but for what the invariant makes of it */
    method DeallocLinked(p: Node)
      requires Linked() && p in live && started
      requires recover != [] || free != []
      requires recover != [] ==> |state.recover[0].chain| <= freeSize
      modifies this, repr
      ensures Linked() && repr == old(repr) && live == old(live) - {p}
      ensures DeallocStep(objSize, old(state), p.slot) == Some(state)
    {
      if recover != [] {
        PutInRecover(p);
        var f := recover[0];
        if f.size == f.initSize {
          if freeSize >= CollectFactor(objSize) {
            GiveBack();
          } else {
            Keep();
          }
        }
      } else {
        PutInFree(p);
      }
    }

    method Dealloc(p: Node)
      requires Valid() && p in live
      modifies this, repr
      ensures Valid() && repr == old(repr) && live == old(live) - {p}
      ensures DeallocStep(objSize, old(state), p.slot) == Some(state) && AP.Returned(objSize, old(state), p.slot, state)
    {
      SlotsInRemove(live, p);
      AP.DeallocReady(objSize, Holding(), p.slot);
      AP.DeallocExact(objSize, Holding(), p.slot);
      DeallocLinked(p);
      ghost var kept := AP.Inv(objSize, Holding());
      assert kept;
    }

    /** destroy_block_obj_al: mem are the blocks allocated, which are those created; each is freed once, and none is left. */
    method Destroy(mem: set<nat>) returns (left: set<nat>)
      requires Valid() && forall b: nat :: b in mem <==> b < blocks
      ensures left == {}
    {
      ghost var f, r, c := BlocksOf(state.free), BlocksOf(state.recover), BlocksOf(state.central);
      AP.ReleasedAll(state);
      Parts(f, r, c, mem);
      left := mem;
      if started {
        left := ReleaseFreeList(free, state.free, repr, objSize, left);
        left := ReleaseFreeList(recover, state.recover, repr, objSize, left);
      }
      left := ReleaseFreeList(central, state.central, repr, objSize, left);
    }
  }

  lemma Parts(a: seq<nat>, b: seq<nat>, c: seq<nat>, all: set<nat>)
    requires NoRepeats(a + b + c) && forall x :: x in all <==> x in a + b + c
    ensures NoRepeats(a) && NoRepeats(b) && NoRepeats(c)
    ensures forall x :: x in a ==> x in all
    ensures forall x :: x in b ==> x in all && x !in a
    ensures forall x :: x in c ==> x in all && x !in a && x !in b
    ensures forall x :: x in all ==> x in a || x in b || x in c
  {
    var q := a + b + c;
    assert forall i :: 0 <= i < |a| ==> q[i] == a[i];
    assert forall i :: 0 <= i < |b| ==> q[|a|+i] == b[i];
    assert forall i :: 0 <= i < |c| ==> q[|a|+|b|+i] == c[i];
  }
}
