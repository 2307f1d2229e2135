/**
 The counted buffers of src/buffer.c and src/refbase.c.

 Memory is a map from addresses to the buffers allocated there, so that freeing is removal and an
 address that is not in the map is dangling.  Where the code would use a dangling address, or start
 to destroy a buffer that it is destroying already, a step has no result.
 */
module BufferSpec {
  import opened Basics

  type Ptr = nat
  const NULL: Ptr := 0

  type Byte = b: int | -128 <= b < 128

  /** refcount is that of _refbase; data are the first size bytes of buf. */
  datatype Buffer = Buffer(refcount: int, capacity: nat, data: seq<Byte>, next: Ptr)

  type Memory = map<Ptr, Buffer>

  function Counted(m: Memory, b: Ptr, delta: int): Memory
    requires b in m
  {
    m[b := m[b].(refcount := m[b].refcount + delta)]
  }

  /** buffer_release and ref_decrease; busy are the buffers whose destroyers are running. */
  function Release(m: Memory, b: Ptr, busy: set<Ptr>): (r: Option<Memory>)
    ensures r.Some? ==> r.value.Keys <= m.Keys
    decreases |m.Keys - busy|, 1
  {
    if b == NULL then Some(m)
    else if b !in m || b in busy then None
    else
      var n := Counted(m, b, -1);
      assert n.Keys == m.Keys;
      if n[b].refcount <= 0 then Destroy(n, b, busy) else Some(n)
  }

  /** buffer_destroy: the next buffer is released before this one is freed. */
  function Destroy(m: Memory, b: Ptr, busy: set<Ptr>): (r: Option<Memory>)
    requires b in m && b !in busy
    ensures r.Some? ==> r.value.Keys <= m.Keys
    decreases |m.Keys - busy|, 0
  {
    assert m.Keys - (busy + {b}) == (m.Keys - busy) - {b};
    var r := Release(m, m[b].next, busy + {b});
    if r.None? || b !in r.value then None else Some(r.value - {b})
  }

  /** buffer_acquire: what the caller's reference to b1 becomes a reference to b2. */
  function Acquire(m: Memory, b1: Ptr, b2: Ptr): Option<Memory> {
    if b1 == b2 then Some(m)
    else if b2 != NULL && b2 !in m then None
    else Release(if b2 != NULL then Counted(m, b2, 1) else m, b1, {})
  }

  /** buffer_create at an address the allocator chose. */
  function Created(m: Memory, nb: Ptr, capacity: nat): Memory {
    m[nb := Buffer(0, capacity, [], NULL)]
  }

  function CreateAndAcquire(m: Memory, b: Ptr, nb: Ptr, capacity: nat): Option<Memory> {
    Acquire(Created(m, nb, capacity), b, nb)
  }

  // ---------- The invariant ----------

  /** The live buffers, not being destroyed, whose next is x. */
  function Preds(m: Memory, busy: set<Ptr>, x: Ptr): set<Ptr> {
    set p | p in m && p !in busy && m[p].next == x
  }

  /** x counts exactly the references to it, handles and next fields, and does not refer to what is being destroyed. */
  ghost predicate CountExact(m: Memory, busy: set<Ptr>, handles: multiset<Ptr>, x: Ptr)
    requires x in m
  {
    && m[x].refcount == handles[x] + |Preds(m, busy, x)| >= 1
    && (m[x].next != NULL ==> m[x].next in m && m[x].next !in busy)
  }

  ghost predicate Exact(m: Memory, busy: set<Ptr>, handles: multiset<Ptr>) {
    && (forall x {:trigger CountExact(m, busy, handles, x)} :: x in m && x !in busy ==> CountExact(m, busy, handles, x))
    && (forall x :: x in handles ==> x in m && x !in busy)
    && NULL !in m
  }

  /** What a release leaves of memory. */
  ghost predicate Remains(n: Memory, m: Memory) {
    n.Keys <= m.Keys && forall x :: x in n ==> n[x] == m[x].(refcount := n[x].refcount)
  }

  lemma PredsWithout(m: Memory, busy: set<Ptr>, b: Ptr, x: Ptr)
    requires b in m && b !in busy
    ensures |Preds(m, busy, x)| == |Preds(m, busy + {b}, x)| + if m[b].next == x then 1 else 0
  {
    if m[b].next == x {
      assert Preds(m, busy, x) == Preds(m, busy + {b}, x) + {b};
    } else {
      assert Preds(m, busy, x) == Preds(m, busy + {b}, x);
    }
  }

  lemma PredsSame(m: Memory, n: Memory, busy: set<Ptr>, x: Ptr)
    requires m.Keys == n.Keys && forall p :: p in m ==> m[p].next == n[p].next
    ensures Preds(m, busy, x) == Preds(n, busy, x)
  {
  }

  ghost predicate Released(r: Option<Memory>, m: Memory, b: Ptr, busy: set<Ptr>, handles: multiset<Ptr>) {
    r.Some? && Exact(r.value, busy, handles - multiset{b}) && Remains(r.value, m) && busy * m.Keys <= r.value.Keys
  }

  lemma CountDown(m: Memory, b: Ptr, busy: set<Ptr>, handles: multiset<Ptr>)
    requires Exact(m, busy, handles) && b in handles && m[b].refcount > 1
    ensures Released(Some(Counted(m, b, -1)), m, b, busy, handles)
  {
    var n := Counted(m, b, -1);
    forall x | x in n && x !in busy ensures CountExact(n, busy, handles - multiset{b}, x) {
      assert CountExact(m, busy, handles, x);
      PredsSame(m, n, busy, x);
    }
  }

  function InHand(handles: multiset<Ptr>, b: Ptr, next: Ptr): multiset<Ptr> {
    if next == NULL then handles - multiset{b} else (handles - multiset{b}) + multiset{next}
  }

  /** The last reference to b goes: while b is destroyed, its reference to the next buffer is like a handle. */
  lemma StartDestroying(m: Memory, b: Ptr, busy: set<Ptr>, handles: multiset<Ptr>)
    requires Exact(m, busy, handles) && b in handles && m[b].refcount == 1
    ensures Exact(Counted(m, b, -1), busy + {b}, InHand(handles, b, m[b].next))
  {
    var n, next := Counted(m, b, -1), m[b].next;
    var rest := InHand(handles, b, next);
    assert CountExact(m, busy, handles, b);
    assert Preds(m, busy, b) == {};
    forall x | x in n && x !in busy + {b} ensures CountExact(n, busy + {b}, rest, x) {
      assert CountExact(m, busy, handles, x);
      assert x !in Preds(m, busy, b);
      PredsSame(m, n, busy + {b}, x);
      PredsWithout(m, busy, b, x);
    }
    assert b !in Preds(m, busy, b);
  }

  lemma Freed(m: Memory, b: Ptr, busy: set<Ptr>, handles: multiset<Ptr>)
    requires Exact(m, busy + {b}, handles) && b in m && b !in busy
    ensures Exact(m - {b}, busy, handles)
  {
    var n := m - {b};
    forall x | x in n && x !in busy ensures CountExact(n, busy, handles, x) {
      assert CountExact(m, busy + {b}, handles, x);
      assert Preds(n, busy, x) == Preds(m, busy + {b}, x);
    }
  }

  lemma FinishDestroying(m: Memory, b: Ptr, busy: set<Ptr>, handles: multiset<Ptr>, r: Option<Memory>)
    requires b in m && b !in busy && b in handles && r.Some?
    requires Exact(r.value, busy + {b}, handles - multiset{b})
    requires Remains(r.value, Counted(m, b, -1)) && (busy + {b}) * m.Keys <= r.value.Keys
    ensures Released(Some(r.value - {b}), m, b, busy, handles)
  {
    Freed(r.value, b, busy, handles - multiset{b});
  }

  lemma LastReference(m: Memory, b: Ptr, busy: set<Ptr>)
    requires b in m && b !in busy && b != NULL && m[b].refcount <= 1
    ensures var r := Release(Counted(m, b, -1), m[b].next, busy + {b});
            Release(m, b, busy) == if r.None? || b !in r.value then None else Some(r.value - {b})
  {
    assert Release(m, b, busy) == Destroy(Counted(m, b, -1), b, busy);
  }

  lemma ReleaseOneOfMany(m: Memory, b: Ptr, busy: set<Ptr>, handles: multiset<Ptr>)
    requires Exact(m, busy, handles) && b in handles && m[b].refcount > 1
    ensures Released(Release(m, b, busy), m, b, busy, handles)
  {
    CountDown(m, b, busy, handles);
    assert Release(m, b, busy) == Some(Counted(m, b, -1));
  }

  lemma ReleaseLast(m: Memory, b: Ptr, busy: set<Ptr>, handles: multiset<Ptr>, r: Option<Memory>)
    requires b in m && b !in busy && b in handles && b != NULL && m[b].refcount <= 1
    requires r == Release(Counted(m, b, -1), m[b].next, busy + {b}) && r.Some?
    requires Exact(r.value, busy + {b}, handles - multiset{b})
    requires Remains(r.value, Counted(m, b, -1)) && (busy + {b}) * m.Keys <= r.value.Keys
    ensures Released(Release(m, b, busy), m, b, busy, handles)
  {
    LastReference(m, b, busy);
    FinishDestroying(m, b, busy, handles, r);
  }

  /** Releasing a reference touches nothing dangling, ends, and leaves the counts exact. */
  lemma {:induction false} ReleaseExact(m: Memory, b: Ptr, busy: set<Ptr>, handles: multiset<Ptr>)
    requires Exact(m, busy, handles) && b in handles
    ensures Released(Release(m, b, busy), m, b, busy, handles)
    decreases |m.Keys - busy|, 0
  {
    assert CountExact(m, busy, handles, b);
    if m[b].refcount > 1 {
      ReleaseOneOfMany(m, b, busy, handles);
    } else {
      var n := Counted(m, b, -1);
      StartDestroying(m, b, busy, handles);
      assert n.Keys - (busy + {b}) == (m.Keys - busy) - {b};
      ReleaseOnward(n, m[b].next, busy + {b}, handles - multiset{b});
      ReleaseLast(m, b, busy, handles, Release(n, m[b].next, busy + {b}));
    }
  }

  /** The destroyer's release of the next buffer, if there is one. */
  lemma {:induction false} ReleaseOnward(m: Memory, next: Ptr, busy: set<Ptr>, rest: multiset<Ptr>)
    requires Exact(m, busy, if next == NULL then rest else rest + multiset{next})
    ensures var r := Release(m, next, busy);
            r.Some? && Exact(r.value, busy, rest) && Remains(r.value, m) && busy * m.Keys <= r.value.Keys
    decreases |m.Keys - busy|, 1
  {
    if next != NULL {
      ReleaseExact(m, next, busy, rest + multiset{next});
      assert rest + multiset{next} - multiset{next} == rest;
    }
  }
}
