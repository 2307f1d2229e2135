/**
 Counted buffers over whole runs: who may do what with its references, and what is then true of memory.
 */
module BufferRuns {
  import opened Basics
  import opened BufferSpec

  /** Memory, and the references that callers hold. */
  datatype World = World(mem: Memory, handles: multiset<Ptr>)

  datatype Op =
    | Create(prev: Ptr, nb: Ptr, capacity: nat)   // b = buffer_create_and_acquire(mt, b, capacity)
    | Acquire(b1: Ptr, b2: Ptr)                  // b1 = buffer_acquire(b1, b2)
    | Release(b: Ptr)                            // buffer_release(&b)
    | Link(p: Ptr, q: Ptr)                       // p->next = buffer_acquire(p->next, q)
    | Fill(b: Ptr, data: seq<Byte>)              // a client writes into buf and size

  // ---------- Chains ----------

  /** Where n next fields lead. */
  function Follow(m: Memory, b: Ptr, n: nat): Ptr
    decreases n
  {
    if n == 0 || b !in m then b else Follow(m, m[b].next, n-1)
  }

  ghost predicate Leads(m: Memory, a: Ptr, b: Ptr) {
    exists n: nat :: Follow(m, a, n) == b
  }

  ghost predicate RankOk(m: Memory, r: map<Ptr, nat>, x: Ptr)
    requires x in m
  {
    m[x].next != NULL ==> x in r && m[x].next in r && r[m[x].next] < r[x]
  }

  ghost predicate Ranks(m: Memory, r: map<Ptr, nat>) {
    forall x {:trigger RankOk(m, r, x)} :: x in m ==> RankOk(m, r, x)
  }

  ghost predicate Acyclic(m: Memory) {
    exists r :: Ranks(m, r)
  }

  // ---------- Steps ----------

  ghost predicate Legal(w: World, op: Op) {
    match op
    case Create(prev, nb, _) => nb !in w.mem && nb != NULL && (prev == NULL || prev in w.handles)
    case Acquire(b1, b2) => (b1 == NULL || b1 in w.handles) && (b2 == NULL || b2 in w.mem)
    case Release(b) => b == NULL || b in w.handles
    case Link(p, q) => p in w.mem && w.mem[p].next == NULL && q in w.mem && !Leads(w.mem, q, p)
    case Fill(b, data) => b in w.mem && |data| <= w.mem[b].capacity
  }

  function One(b: Ptr): multiset<Ptr> {
    if b == NULL then multiset{} else multiset{b}
  }

  function Linked(m: Memory, p: Ptr, q: Ptr): Memory
    requires p in m && q in m
  {
    var n := Counted(m, q, 1);
    n[p := n[p].(next := q)]
  }

  function Step(w: World, op: Op): Option<World> {
    match op
    case Create(prev, nb, capacity) =>
      var r := CreateAndAcquire(w.mem, prev, nb, capacity);
      if r.None? then None else Some(World(r.value, w.handles + One(nb) - One(prev)))
    case Acquire(b1, b2) =>
      var r := BufferSpec.Acquire(w.mem, b1, b2);
      if r.None? then None else Some(World(r.value, w.handles + One(b2) - One(b1)))
    case Release(b) =>
      var r := BufferSpec.Release(w.mem, b, {});
      if r.None? then None else Some(World(r.value, w.handles - One(b)))
    case Link(p, q) =>
      if p !in w.mem || q !in w.mem then None else Some(w.(mem := Linked(w.mem, p, q)))
    case Fill(b, data) =>
      if b !in w.mem then None else Some(w.(mem := w.mem[b := w.mem[b].(data := data)]))
  }

  /** The counts are exact and next fields form no cycle. */
  ghost predicate Inv(w: World) {
    Exact(w.mem, {}, w.handles) && Acyclic(w.mem)
  }

  lemma InitInv()
    ensures Inv(World(map[], multiset{}))
  {
    assert Ranks(map[], map[]);
  }

  lemma AcyclicRemains(n: Memory, m: Memory)
    requires Remains(n, m) && Acyclic(m)
    ensures Acyclic(n)
  {
    var r :| Ranks(m, r);
    forall x | x in n ensures RankOk(n, r, x) {
      assert RankOk(m, r, x);
    }
    assert Ranks(n, r);
  }

  lemma CountUp(m: Memory, b: Ptr, handles: multiset<Ptr>)
    requires Exact(m, {}, handles) && b in m
    ensures Exact(Counted(m, b, 1), {}, handles + multiset{b}) && Remains(Counted(m, b, 1), m)
  {
    var n := Counted(m, b, 1);
    forall x | x in n ensures CountExact(n, {}, handles + multiset{b}, x) {
      assert CountExact(m, {}, handles, x);
      PredsSame(m, n, {}, x);
    }
  }

  /** Giving up a reference, if it is one. */
  lemma GiveUp(m: Memory, b: Ptr, handles: multiset<Ptr>, left: multiset<Ptr>)
    requires Exact(m, {}, handles) && Acyclic(m) && (b == NULL || b in handles) && left == handles - One(b)
    ensures var r := BufferSpec.Release(m, b, {});
            r.Some? && Exact(r.value, {}, left) && Acyclic(r.value) && Remains(r.value, m)
  {
    if b != NULL {
      ReleaseExact(m, b, {}, handles);
      assert left == handles - multiset{b};
      AcyclicRemains(BufferSpec.Release(m, b, {}).value, m);
    } else {
      assert left == handles;
    }
  }

  /** Moving a reference from b1 to b2 frees neither b2 nor anything that b2 needs. */
  lemma AcquireInv(w: World, b1: Ptr, b2: Ptr)
    requires Inv(w) && Legal(w, Acquire(b1, b2))
    ensures var r := Step(w, Acquire(b1, b2));
            r.Some? && Inv(r.value) && Remains(r.value.mem, w.mem) && (b2 != NULL ==> b2 in r.value.mem)
  {
    var left := w.handles + One(b2) - One(b1);
    if b1 == b2 {
      assert left == w.handles;
    } else if b2 == NULL {
      GiveUp(w.mem, b1, w.handles, left);
    } else {
      CountUp(w.mem, b2, w.handles);
      AcyclicRemains(Counted(w.mem, b2, 1), w.mem);
      GiveUp(Counted(w.mem, b2, 1), b1, w.handles + multiset{b2}, left);
    }
    if b2 != NULL && b1 != b2 { assert b2 in left; }
  }

  lemma CreatedInv(m: Memory, handles: multiset<Ptr>, nb: Ptr, capacity: nat)
    requires Exact(m, {}, handles) && Acyclic(m) && nb !in m && nb != NULL
    ensures var n := Counted(Created(m, nb, capacity), nb, 1); Exact(n, {}, handles + multiset{nb}) && Acyclic(n)
  {
    var n := Counted(Created(m, nb, capacity), nb, 1);
    forall x | x in n ensures CountExact(n, {}, handles + multiset{nb}, x) {
      if x != nb {
        assert CountExact(m, {}, handles, x);
        assert Preds(n, {}, x) == Preds(m, {}, x);
      } else {
        forall p | p in m ensures m[p].next != nb {
          assert CountExact(m, {}, handles, p);
        }
        assert Preds(n, {}, nb) == {};
      }
    }
    var r :| Ranks(m, r);
    forall x | x in n ensures RankOk(n, r, x) {
      if x != nb { assert RankOk(m, r, x); }
    }
    assert Ranks(n, r);
  }

  /** Nothing refers to an address that is not allocated. */
  lemma NoPreds(m: Memory, handles: multiset<Ptr>, nb: Ptr)
    requires Exact(m, {}, handles) && nb !in m && nb != NULL
    ensures handles[nb] == 0 && forall p :: p in m ==> m[p].next != nb
  {
    forall p | p in m ensures m[p].next != nb {
      assert CountExact(m, {}, handles, p);
    }
  }

  lemma CreatedFields(n: Memory, m: Memory, left: multiset<Ptr>, nb: Ptr, capacity: nat)
    requires nb !in m && nb != NULL && Remains(n, Counted(Created(m, nb, capacity), nb, 1)) && nb in n
    requires Exact(n, {}, left) && left[nb] == 1 && forall p :: p in m ==> m[p].next != nb
    ensures n[nb] == Buffer(1, capacity, [], NULL)
  {
    assert CountExact(n, {}, left, nb);
    assert Preds(n, {}, nb) == {};
  }

  /** A new buffer is empty, has room for capacity bytes, leads nowhere, and is referred to once. */
  lemma CreateInv(w: World, prev: Ptr, nb: Ptr, capacity: nat)
    requires Inv(w) && Legal(w, Create(prev, nb, capacity))
    ensures var r := Step(w, Create(prev, nb, capacity));
            r.Some? && Inv(r.value) && nb in r.value.mem && r.value.mem[nb] == Buffer(1, capacity, [], NULL)
  {
    var left := w.handles + One(nb) - One(prev);
    var n := Created(w.mem, nb, capacity);
    CreatedInv(w.mem, w.handles, nb, capacity);
    GiveUp(Counted(n, nb, 1), prev, w.handles + multiset{nb}, left);
    assert CreateAndAcquire(w.mem, prev, nb, capacity) == BufferSpec.Release(Counted(n, nb, 1), prev, {});
    NoPreds(w.mem, w.handles, nb);
    assert left[nb] == 1;
    assert nb in left;
    CreatedFields(Step(w, Create(prev, nb, capacity)).value.mem, w.mem, left, nb, capacity);
  }

  lemma ReleaseInv(w: World, b: Ptr)
    requires Inv(w) && Legal(w, Release(b))
    ensures var r := Step(w, Release(b)); r.Some? && Inv(r.value) && Remains(r.value.mem, w.mem)
  {
    GiveUp(w.mem, b, w.handles, w.handles - One(b));
  }

  lemma FollowNext(m: Memory, x: Ptr, p: Ptr)
    requires x in m && Leads(m, m[x].next, p)
    ensures Leads(m, x, p)
  {
    var n: nat :| Follow(m, m[x].next, n) == p;
    assert Follow(m, x, n+1) == p;
  }

  /** Everything that leads to p is lifted above q. */
  lemma LinkAcyclic(m: Memory, p: Ptr, q: Ptr)
    requires Acyclic(m) && p in m && q in m && m[p].next == NULL && !Leads(m, q, p) && q != NULL
    ensures Acyclic(Linked(m, p, q))
  {
    var r :| Ranks(m, r);
    var n := Linked(m, p, q);
    var above := (if q in r then r[q] else 0) + 1;
    var lifted := map x: Ptr | x in m.Keys + r.Keys :: (if x in r then r[x] else 0) + (if Leads(m, x, p) then above else 0);
    assert Follow(m, p, 0) == p;
    forall x | x in n ensures RankOk(n, lifted, x) {
      assert RankOk(m, r, x);
      if m[x].next != NULL && Leads(m, m[x].next, p) {
        FollowNext(m, x, p);
      }
    }
    assert Ranks(n, lifted);
  }

  lemma LinkInv(w: World, p: Ptr, q: Ptr)
    requires Inv(w) && Legal(w, Link(p, q))
    ensures var r := Step(w, Link(p, q)); r.Some? && Inv(r.value)
  {
    assert Follow(w.mem, q, 0) == q;
    LinkAcyclic(w.mem, p, q);
    LinkExact(w.mem, w.handles, p, q);
  }

  lemma LinkPreds(m: Memory, p: Ptr, q: Ptr, x: Ptr)
    requires p in m && q in m && p != q && m[p].next == NULL && q != NULL && x != NULL
    ensures Preds(Linked(m, p, q), {}, x) == Preds(m, {}, x) + if x == q then {p} else {}
  {
    var n := Linked(m, p, q);
    var before, after := Preds(m, {}, x), Preds(n, {}, x);
    assert forall y :: y in m && y != p ==> n[y].next == m[y].next;
    assert forall y :: y in after <==> y in before || (y == p && x == q);
  }

  lemma LinkExact(m: Memory, handles: multiset<Ptr>, p: Ptr, q: Ptr)
    requires Exact(m, {}, handles) && p in m && q in m && p != q && m[p].next == NULL
    ensures Exact(Linked(m, p, q), {}, handles)
  {
    var n := Linked(m, p, q);
    forall x | x in n ensures CountExact(n, {}, handles, x) {
      assert CountExact(m, {}, handles, x);
      LinkPreds(m, p, q, x);
      assert p !in Preds(m, {}, x);
    }
  }

  lemma FillInv(w: World, b: Ptr, data: seq<Byte>)
    requires Inv(w) && Legal(w, Fill(b, data))
    ensures var r := Step(w, Fill(b, data)); r.Some? && Inv(r.value)
  {
    var n := w.mem[b := w.mem[b].(data := data)];
    forall x | x in n ensures CountExact(n, {}, w.handles, x) {
      assert CountExact(w.mem, {}, w.handles, x);
      PredsSame(w.mem, n, {}, x);
    }
    var r :| Ranks(w.mem, r);
    forall x | x in n ensures RankOk(n, r, x) {
      assert RankOk(w.mem, r, x);
    }
    assert Ranks(n, r);
  }

  /** No legal step uses a dangling address, and each keeps the counts exact. */
  lemma StepInv(w: World, op: Op)
    requires Inv(w) && Legal(w, op)
    ensures Step(w, op).Some? && Inv(Step(w, op).value)
  {
    match op
    case Create(prev, nb, capacity) => CreateInv(w, prev, nb, capacity);
    case Acquire(b1, b2) => AcquireInv(w, b1, b2);
    case Release(b) => ReleaseInv(w, b);
    case Link(p, q) => LinkInv(w, p, q);
    case Fill(b, data) => FillInv(w, b, data);
  }

  // ---------- Runs ----------

  /** Reached a world; Refused what its caller may not do; Failed on a dangling address. */
  datatype Outcome = Reached(world: World) | Refused | Failed

  ghost function Exec(w: World, ops: seq<Op>): (r: Outcome)
    decreases |ops|
  {
    if ops == [] then Reached(w)
    else if !Legal(w, ops[0]) then Refused
    else
      var u := Step(w, ops[0]);
      if u.None? then Failed else Exec(u.value, ops[1..])
  }

  /** No run of legal steps uses freed memory, and its counts are exact throughout. */
  lemma {:induction false} ExecInv(w: World, ops: seq<Op>)
    requires Inv(w)
    ensures var r := Exec(w, ops); !r.Failed? && (r.Reached? ==> Inv(r.world))
    decreases |ops|
  {
    if ops != [] && Legal(w, ops[0]) {
      StepInv(w, ops[0]);
      ExecInv(Step(w, ops[0]).value, ops[1..]);
    }
  }

  // ---------- Live means reachable ----------

  ghost predicate Reachable(w: World, x: Ptr) {
    exists h :: h in w.handles && Leads(w.mem, h, x)
  }

  lemma {:induction false} FollowLive(w: World, b: Ptr, n: nat)
    requires Exact(w.mem, {}, w.handles) && b in w.mem
    ensures Follow(w.mem, b, n) == NULL || Follow(w.mem, b, n) in w.mem
    decreases n
  {
    if n > 0 {
      assert CountExact(w.mem, {}, w.handles, b);
      if w.mem[b].next != NULL { FollowLive(w, w.mem[b].next, n-1); }
    }
  }

  lemma {:induction false} FollowOneMore(m: Memory, b: Ptr, n: nat)
    requires Follow(m, b, n) in m
    ensures Follow(m, b, n+1) == m[Follow(m, b, n)].next
    decreases n
  {
    if n > 0 && b in m {
      FollowOneMore(m, m[b].next, n-1);
    }
  }

  lemma {:induction false} LargestRank(r: map<Ptr, nat>) returns (most: nat)
    ensures forall x :: x in r ==> r[x] <= most
    decreases |r|
  {
    if r == map[] {
      most := 0;
    } else {
      var x :| x in r;
      var rest := LargestRank(r - {x});
      most := if r[x] > rest then r[x] else rest;
      forall y | y in r ensures r[y] <= most {
        if y != x { assert y in r - {x}; }
      }
    }
  }

  /** Going backwards from a live buffer, against falling ranks, ends at one that a caller holds. */
  lemma {:induction false} HeldFromAbove(w: World, r: map<Ptr, nat>, most: nat, x: Ptr)
    requires Exact(w.mem, {}, w.handles) && Ranks(w.mem, r) && x in w.mem
    requires forall y :: y in r ==> r[y] <= most
    ensures Reachable(w, x)
    decreases if x in r then most - r[x] else most + 1
  {
    assert CountExact(w.mem, {}, w.handles, x);
    if x in w.handles {
      assert Follow(w.mem, x, 0) == x;
    } else {
      assert Preds(w.mem, {}, x) != {};
      var p :| p in Preds(w.mem, {}, x);
      assert RankOk(w.mem, r, p);
      HeldFromAbove(w, r, most, p);
      var h :| h in w.handles && Leads(w.mem, h, p);
      var n: nat :| Follow(w.mem, h, n) == p;
      FollowOneMore(w.mem, h, n);
      assert Leads(w.mem, h, x);
    }
  }

  /** A buffer is allocated exactly while some caller's reference leads to it. */
  lemma LiveIffReachable(w: World, x: Ptr)
    requires Inv(w) && x != NULL
    ensures x in w.mem <==> Reachable(w, x)
  {
    if x in w.mem {
      var r :| Ranks(w.mem, r);
      var most := LargestRank(r);
      HeldFromAbove(w, r, most, x);
    }
    if Reachable(w, x) {
      var h :| h in w.handles && Leads(w.mem, h, x);
      var n: nat :| Follow(w.mem, h, n) == x;
      FollowLive(w, h, n);
    }
  }

  /** When the last reference is gone, so is every buffer. */
  lemma NoLeak(ops: seq<Op>)
    requires var r := Exec(World(map[], multiset{}), ops); r.Reached? && r.world.handles == multiset{}
    ensures Exec(World(map[], multiset{}), ops).world.mem == map[]
  {
    InitInv();
    ExecInv(World(map[], multiset{}), ops);
    var w := Exec(World(map[], multiset{}), ops).world;
    forall x | x in w.mem ensures false {
      LiveIffReachable(w, x);
    }
  }

  function Releases(bs: seq<Ptr>): (r: seq<Op>)
    ensures |r| == |bs|
  {
    seq(|bs|, i requires 0 <= i < |bs| => Release(bs[i]))
  }

  lemma FirstReleased(w: World, bs: seq<Ptr>)
    requires Inv(w) && bs != [] && multiset(bs) == w.handles
    ensures bs[0] != NULL && Legal(w, Release(bs[0])) && multiset(bs[1..]) == w.handles - One(bs[0])
  {
    assert bs == [bs[0]] + bs[1..];
    assert bs[0] in multiset(bs);
  }

  /** Giving up every reference, in any order, never fails and empties memory. */
  lemma {:induction false} ReleasingAll(w: World, bs: seq<Ptr>)
    requires Inv(w) && multiset(bs) == w.handles
    ensures Exec(w, Releases(bs)) == Reached(World(map[], multiset{}))
    decreases |bs|
  {
    if bs == [] {
      forall x | x in w.mem ensures false {
        LiveIffReachable(w, x);
      }
    } else {
      FirstReleased(w, bs);
      ReleaseInv(w, bs[0]);
      assert Releases(bs)[1..] == Releases(bs[1..]);
      ReleasingAll(Step(w, Release(bs[0])).value, bs[1..]);
    }
  }

  /** acquire(b, b->next) leaves the buffer moved to allocated and as it was, with everything it leads to. */
  lemma MoveAlong(w: World, b: Ptr, x: Ptr)
    requires Inv(w) && b in w.handles && b in w.mem && w.mem[b].next != NULL && x != NULL && Leads(w.mem, w.mem[b].next, x)
    ensures var r := Step(w, Acquire(b, w.mem[b].next));
            r.Some? && x in r.value.mem && r.value.mem[x].data == w.mem[x].data && r.value.mem[x].next == w.mem[x].next
  {
    assert CountExact(w.mem, {}, w.handles, b);
    AcquireInv(w, b, w.mem[b].next);
    var n: nat :| Follow(w.mem, w.mem[b].next, n) == x;
    FollowRemains(w, Step(w, Acquire(b, w.mem[b].next)).value, w.mem[b].next, n);
  }

  lemma {:induction false} FollowRemains(w: World, u: World, b: Ptr, n: nat)
    requires Exact(u.mem, {}, u.handles) && Remains(u.mem, w.mem) && b in u.mem && Follow(w.mem, b, n) != NULL
    requires NULL !in w.mem
    ensures Follow(w.mem, b, n) in u.mem
    decreases n
  {
    if n > 0 {
      assert CountExact(u.mem, {}, u.handles, b);
      assert w.mem[b].next == u.mem[b].next;
      FollowRemains(w, u, w.mem[b].next, n-1);
    }
  }

  // ---------- Reading a chain ----------

  /** The bytes of the chain from b; seen is where to stop on a cycle. */
  function Flatten(m: Memory, b: Ptr, seen: set<Ptr>): seq<Byte>
    decreases |m.Keys - seen|
  {
    if b !in m || b in seen then []
    else
      assert m.Keys - (seen + {b}) == (m.Keys - seen) - {b};
      m[b].data + Flatten(m, m[b].next, seen + {b})
  }

  lemma {:induction false} FlattenSeen(m: Memory, r: map<Ptr, nat>, b: Ptr, s: set<Ptr>, t: set<Ptr>)
    requires Ranks(m, r) && NULL !in m && b !in s && b !in t
    requires b in r ==> forall x :: x in s + t ==> x in r && r[x] > r[b]
    ensures Flatten(m, b, s) == Flatten(m, b, t)
    decreases if b in r then r[b] + 1 else 0
  {
    if b in m {
      assert RankOk(m, r, b);
      if m[b].next != NULL {
        FlattenSeen(m, r, m[b].next, s + {b}, t + {b});
      }
    }
  }

  /** Where chains have no cycle, nothing stops Flatten but their ends. */
  lemma FlattenStep(m: Memory, b: Ptr)
    requires Acyclic(m) && NULL !in m && b in m
    ensures Flatten(m, b, {}) == m[b].data + Flatten(m, m[b].next, {})
  {
    var r :| Ranks(m, r);
    assert RankOk(m, r, b);
    assert Flatten(m, b, {}) == m[b].data + Flatten(m, m[b].next, {} + {b});
    if m[b].next != NULL {
      FlattenSeen(m, r, m[b].next, {} + {b}, {});
    }
  }

  /** What of the chain from b lies at position pos of b and after. */
  function Rest(m: Memory, b: Ptr, pos: nat): seq<Byte>
    requires b in m ==> pos <= |m[b].data|
  {
    if b !in m then [] else m[b].data[pos..] + Flatten(m, m[b].next, {})
  }

  lemma RestIsTail(m: Memory, b: Ptr, pos: nat)
    requires Acyclic(m) && NULL !in m && b in m && pos <= |m[b].data|
    ensures pos <= |Flatten(m, b, {})| && Rest(m, b, pos) == Flatten(m, b, {})[pos..]
  {
    FlattenStep(m, b);
  }

  lemma RestFromStart(m: Memory, b: Ptr)
    requires Acyclic(m) && NULL !in m
    ensures Rest(m, b, 0) == Flatten(m, b, {})
  {
    if b in m { RestIsTail(m, b, 0); }
  }

  /** Reading on within b, or from its end into the next buffer. */
  lemma RestStep(m: Memory, b: Ptr, pos: nat, k: nat)
    requires Acyclic(m) && NULL !in m && b in m && pos + k <= |m[b].data|
    ensures Rest(m, b, pos) == m[b].data[pos..pos+k] +
              if pos + k < |m[b].data| then Rest(m, b, pos+k) else Rest(m, m[b].next, 0)
  {
    RestFromStart(m, m[b].next);
    SplitData(m[b].data, pos, k, Flatten(m, m[b].next, {}));
  }

  lemma SplitData(data: seq<Byte>, pos: nat, k: nat, after: seq<Byte>)
    requires pos + k <= |data|
    ensures data[pos..] + after == data[pos..pos+k] + if pos + k < |data| then data[pos+k..] + after else after
  {
    assert data[pos..] == data[pos..pos+k] + data[pos+k..];
  }
}
