/**
 src/buffer.c and src/refbase.c with their pointers: buffers whose counts and next fields change in
 place, released by a destroyer that calls back, and the scatter read along a chain.  Each method is
 proved to do to memory what BufferSpec says.
 */
module Buffers {
  import opened Basics
  import opened BufferSpec
  import opened BufferRuns

  class Buffer {
    ghost const addr: Ptr
    const capacity: nat
    const buf: array<Byte>
    var refcount: int
    var size: nat
    var next: Buffer?

    ghost function View(): BufferSpec.Buffer
      reads this, buf
      requires size <= buf.Length
    {
      BufferSpec.Buffer(refcount, capacity, buf[..size], Addr(next))
    }

    /** buffer_create, in memory that the allocator clears. */
    constructor (ghost addr: Ptr, capacity: nat)
      ensures this.addr == addr && this.capacity == capacity && fresh(buf) && buf.Length == capacity
      ensures refcount == 0 && size == 0 && next == null
    {
      this.addr, this.capacity := addr, capacity;
      buf := new Byte[capacity](_ => 0);
      refcount, size, next := 0, 0, null;
    }
  }

  ghost function Addr(b: Buffer?): Ptr {
    if b == null then NULL else b.addr
  }

  /** Sizes and positions are uint32_t. */
  const U32: nat := 0x1_0000_0000

  /** was, with its first n bytes replaced by those of all. */
  ghost function Overlaid(was: seq<Byte>, all: seq<Byte>, n: nat): seq<Byte>
    requires n <= |all| && n <= |was|
  {
    all[..n] + was[n..]
  }

  /** Reading size of the bytes all gives 0 if there are that many, and -1 if there are fewer; out has what there was. */
  ghost predicate ReadOk(all: seq<Byte>, size: nat, ret: int, was: seq<Byte>, now: seq<Byte>)
    requires size <= |was|
  {
    if size <= |all| then ret == 0 && now == Overlaid(was, all, size)
    else ret == -1 && now == Overlaid(was, all, |all|)
  }

  lemma AcquireFirst(m: Memory, q: Ptr)
    requires q in m && q != NULL
    ensures BufferSpec.Acquire(m, NULL, q) == Some(Counted(m, q, 1))
  {
  }

  /** The memory that buffers come from. */
  class Memories {
    ghost var live: map<Ptr, Buffer>

    /** What live buffers refer to, if it is live, is where it says. */
    ghost predicate Valid()
      reads this, live.Values
    {
      && NULL !in live
      && (forall x :: x in live ==> live[x].addr == x && live[x].size <= live[x].buf.Length == live[x].capacity)
      && (forall x {:trigger Refers(live[x].next)} :: x in live ==> Refers(live[x].next))
    }

    ghost predicate Refers(b: Buffer?)
      reads this
    {
      b != null ==> b.addr != NULL && (b.addr in live ==> live[b.addr] == b)
    }

    ghost function View(): (m: Memory)
      reads this, live.Values, set b | b in live.Values :: b.buf
      requires Valid()
      ensures m.Keys == live.Keys
    {
      map x | x in live :: live[x].View()
    }

    /** After a change to b alone, memory m, as it was, has changed at b alone. */
    lemma OneChanged(b: Buffer, m: Memory)
      requires Valid() && b.addr in live && live[b.addr] == b && m.Keys == live.Keys
      requires forall x :: x in live && x != b.addr ==> live[x].View() == m[x]
      ensures View() == m[b.addr := b.View()]
    {
    }

    lemma Shrunk(m: Memory, a: Ptr)
      requires Valid() && a in m && live.Keys == m.Keys - {a}
      requires forall x :: x in live ==> live[x].View() == m[x]
      ensures View() == m - {a}
    {
    }

    constructor ()
      ensures Valid() && View() == map[]
    {
      live := map[];
    }

    method Count(b: Buffer, delta: int)
      requires Valid() && b.addr in live && live[b.addr] == b
      modifies b
      ensures Valid() && View() == Counted(old(View()), b.addr, delta)
      ensures b.refcount == old(View())[b.addr].refcount + delta
    {
      ghost var m := View();
      b.refcount := b.refcount + delta;
      OneChanged(b, m);
    }

    /** ref_increase. */
    method RefIncrease(b: Buffer)
      requires Valid() && b.addr in live && live[b.addr] == b
      modifies b
      ensures Valid() && View() == Counted(old(View()), b.addr, 1)
    {
      Count(b, 1);
    }

    /** ref_decrease, for a buffer, whose destroyer is buffer_destroy. */
    method RefDecrease(b: Buffer, ghost busy: set<Ptr>)
      requires Valid() && b.addr in live && live[b.addr] == b && b.addr !in busy
      requires BufferSpec.Release(View(), b.addr, busy).Some?
      modifies this, live.Values
      ensures Valid() && View() == BufferSpec.Release(old(View()), b.addr, busy).value
      ensures live.Keys <= old(live.Keys) && forall x :: x in live ==> live[x] == old(live[x])
      decreases |live.Keys - busy|, 1
    {
      Count(b, -1);
      if b.refcount <= 0 {
        Destroy(b, busy);
      }
    }

    /** buffer_destroy. */
    method Destroy(b: Buffer, ghost busy: set<Ptr>)
      requires Valid() && b.addr in live && live[b.addr] == b && b.addr !in busy
      requires BufferSpec.Destroy(View(), b.addr, busy).Some?
      modifies this, live.Values
      ensures Valid() && View() == BufferSpec.Destroy(old(View()), b.addr, busy).value
      ensures live.Keys <= old(live.Keys) && forall x :: x in live ==> live[x] == old(live[x])
      decreases |live.Keys - busy|, 0
    {
      assert live.Keys - (busy + {b.addr}) == (live.Keys - busy) - {b.addr};
      var next := b.next;
      if next != null {
        next := Release(next, busy + {b.addr});
      }
      Free(b, next);
    }

    method Free(b: Buffer, next: Buffer?)
      requires Valid() && b.addr in live && live[b.addr] == b
      modifies this, b
      ensures Valid() && live == old(live) - {b.addr} && View() == old(View()) - {b.addr}
    {
      ghost var m := View();
      b.next := next;
      live := live - {b.addr};
      forall x | x in live ensures Refers(live[x].next) && live[x].View() == m[x] {
        assert old(Refers(live[x].next)) && live[x] != b;
      }
      Shrunk(m, b.addr);
    }

    /** buffer_release; cleared is what becomes of the caller's variable. */
    method Release(b: Buffer?, ghost busy: set<Ptr>) returns (cleared: Buffer?)
      requires Valid() && Refers(b)
      requires BufferSpec.Release(View(), Addr(b), busy).Some?
      modifies this, live.Values
      ensures Valid() && View() == BufferSpec.Release(old(View()), Addr(b), busy).value && cleared == null
      ensures live.Keys <= old(live.Keys) && forall x :: x in live ==> live[x] == old(live[x])
      decreases |live.Keys - busy|, 2
    {
      if b != null {
        RefDecrease(b, busy);
      }
      cleared := null;
    }

    /** buffer_acquire. */
    method Acquire(b1: Buffer?, b2: Buffer?) returns (r: Buffer?)
      requires Valid() && Refers(b1) && Refers(b2) && (Addr(b1) == Addr(b2) ==> b1 == b2)
      requires BufferSpec.Acquire(View(), Addr(b1), Addr(b2)).Some?
      modifies this, live.Values
      ensures Valid() && r == b2 && View() == BufferSpec.Acquire(old(View()), Addr(b1), Addr(b2)).value
      ensures live.Keys <= old(live.Keys) && forall x :: x in live ==> live[x] == old(live[x])
    {
      if b1 == b2 { return b1; }
      if b2 != null {
        RefIncrease(b2);
      }
      if b1 != null {
        var _ := Release(b1, {});
      }
      return b2;
    }

    /** Storing a new reference in a next field that is null. */
    method Link(p: Buffer, q: Buffer)
      requires Valid() && p.addr in live && live[p.addr] == p && q.addr in live && live[q.addr] == q
      requires p.next == null && p != q
      modifies this, live.Values
      ensures Valid() && View() == Linked(old(View()), p.addr, q.addr) && live == old(live)
    {
      ghost var m := View();
      AcquireFirst(m, q.addr);
      var taken := Acquire(null, q);
      assert live.Keys == old(live).Keys;
      assert live == old(live);
      SetNext(p, taken);
    }

    method SetNext(p: Buffer, q: Buffer?)
      requires Valid() && p.addr in live && live[p.addr] == p && Refers(q)
      modifies p
      ensures Valid() && View() == old(View())[p.addr := old(View())[p.addr].(next := Addr(q))]
    {
      ghost var m := View();
      p.next := q;
      OneChanged(p, m);
    }

    /** buffer_create_and_acquire; a is where the allocator puts the new buffer. */
    method CreateAndAcquire(b: Buffer?, capacity: nat, ghost a: Ptr) returns (r: Buffer?)
      requires Valid() && Refers(b) && a != NULL && a !in live && a != Addr(b)
      requires forall x :: x in live ==> Addr(live[x].next) != a
      requires BufferSpec.CreateAndAcquire(View(), Addr(b), a, capacity).Some?
      modifies this, live.Values
      ensures Valid() && View() == BufferSpec.CreateAndAcquire(old(View()), Addr(b), a, capacity).value
      ensures r != null && fresh(r) && r.addr == a
      ensures live.Keys <= old(live.Keys) + {a} && forall x :: x in live && x != a ==> live[x] == old(live[x])
    {
      var nb := Create(capacity, a);
      r := Acquire(b, nb);
    }

    method Create(capacity: nat, ghost a: Ptr) returns (nb: Buffer)
      requires Valid() && a != NULL && a !in live && forall x :: x in live ==> Addr(live[x].next) != a
      modifies this
      ensures Valid() && fresh(nb) && nb.addr == a && live == old(live)[a := nb]
      ensures View() == Created(old(View()), a, capacity)
    {
      nb := new Buffer(a, capacity);
      assert nb.View() == BufferSpec.Buffer(0, capacity, [], NULL);
      Enlist(nb);
    }

    /** The allocator hands out b's address. */
    ghost method Enlist(b: Buffer)
      requires Valid() && b.addr != NULL && b.addr !in live && forall x :: x in live ==> Addr(live[x].next) != b.addr
      requires b.size <= b.buf.Length == b.capacity && b.next == null
      modifies this
      ensures Valid() && live == old(live)[b.addr := b] && View() == old(View())[b.addr := b.View()]
    {
      var m := View()[b.addr := b.View()];
      live := live[b.addr := b];
      forall x | x in live ensures Refers(live[x].next) && (x != b.addr ==> live[x].View() == m[x]) {
        assert x != b.addr ==> old(Refers(live[x].next));
      }
      OneChanged(b, m);
    }

    // ---------- Reading ----------

    ghost predicate Known(b: Buffer?)
      reads this
    {
      b != null ==> b.addr in live && live[b.addr] == b
    }

    lemma DataAt(b: Buffer, pos: nat, n: nat)
      requires Valid() && b.addr in live && live[b.addr] == b && pos + n <= b.size
      ensures View()[b.addr].data[pos..pos+n] == b.buf[pos..pos+n]
    {
      assert View()[b.addr] == b.View();
      assert b.buf[..b.size][pos..pos+n] == b.buf[pos..pos+n];
    }

    /** memcpy(out + at, b->buf + pos, n), into memory that is not the buffers'. */
    method Copy(out: array<Byte>, at: nat, b: Buffer, pos: nat, n: nat)
      requires Valid() && Known(b) && forall x :: x in live ==> live[x].buf != out
      requires at + n <= out.Length && pos + n <= b.size
      modifies out
      ensures Valid() && View() == old(View())
      ensures out[..] == old(out[..at]) + View()[b.addr].data[pos..pos+n] + old(out[at+n..])
    {
      ghost var m := View();
      CopyBytes(out, at, b.buf, pos, n);
      OneChanged(b, m);
      DataAt(b, pos, n);
    }

    static method CopyBytes(out: array<Byte>, at: nat, src: array<Byte>, pos: nat, n: nat)
      requires src != out && at + n <= out.Length && pos + n <= src.Length
      modifies out
      ensures out[..] == old(out[..at]) + src[pos..pos+n] + old(out[at+n..])
    {
      forall i | 0 <= i < n {
        out[at+i] := src[pos+i];
      }
    }

    lemma Joined(was: seq<Byte>, before: seq<Byte>, after: seq<Byte>, all: seq<Byte>, at: nat, n: nat)
      requires at + n <= |all| && at + n <= |was| && |before| == |was|
      requires before == Overlaid(was, all, at)
      requires after == before[..at] + all[at..][..n] + before[at+n..]
      ensures after == Overlaid(was, all, at + n)
    {
      assert before[at+n..] == was[at+n..];
      assert all[..at+n] == all[..at] + all[at..][..n];
    }

    /** What is left of all, at from, is the chain from position pos of b on. */
    ghost predicate Reading(m: Memory, b: Buffer?, pos: nat, all: seq<Byte>, at: nat)
      reads this, live.Values, set b | b in live.Values :: b.buf
    {
      && Valid() && View() == m && Known(b) && (b != null ==> pos <= b.size)
      && at <= |all| && all[at..] == BufferRuns.Rest(m, Addr(b), pos)
    }

    lemma Advance(m: Memory, b: Buffer, pos: nat, all: seq<Byte>, at: nat, n: nat)
      requires Reading(m, b, pos, all, at) && Acyclic(m) && pos + n <= b.size
      requires b.next != null ==> b.next.addr in m
      ensures at + n <= |all| && all[at..][..n] == m[b.addr].data[pos..pos+n]
      ensures if pos + n >= b.size then Reading(m, b.next, 0, all, at+n) else Reading(m, b, pos+n, all, at+n)
    {
      assert Refers(live[b.addr].next);
      RestStep(m, b.addr, pos, n);
      assert all[at+n..] == all[at..][n..];
    }

    method CopyOver(out: array<Byte>, at: nat, b: Buffer, pos: nat, n: nat, ghost all: seq<Byte>, ghost was: seq<Byte>)
      requires Valid() && Known(b) && pos + n <= b.size && forall x :: x in live ==> live[x].buf != out
      requires |was| == out.Length && at + n <= out.Length && at + n <= |all| && out[..] == Overlaid(was, all, at)
      requires all[at..][..n] == View()[b.addr].data[pos..pos+n]
      modifies out
      ensures Valid() && View() == old(View())
      ensures out[..] == Overlaid(was, all, at + n)
    {
      ghost var before := out[..];
      Copy(out, at, b, pos, n);
      Joined(was, before, out[..], all, at, n);
    }

    /** n bytes are copied, and reading goes on after them. */
    method CopyNext(ghost m: Memory, out: array<Byte>, at: nat, b: Buffer, pos: nat, n: nat, ghost all: seq<Byte>, ghost was: seq<Byte>)
      returns (next: Buffer?, start: nat, end: nat)
      requires Reading(m, b, pos, all, at) && Acyclic(m) && pos + n <= b.size && (b.next != null ==> b.next.addr in m)
      requires |was| == out.Length && at + n <= out.Length && out[..] == Overlaid(was, all, at)
      requires forall x :: x in live ==> live[x].buf != out
      modifies out
      ensures end == at + n <= |all| && out[..] == Overlaid(was, all, end)
      ensures Reading(m, next, start, all, end) && next == if pos + n >= b.size then b.next else b
    {
      Advance(m, b, pos, all, at, n);
      CopyOver(out, at, b, pos, n, all, was);
      next, start, end := b, pos + n, at + n;
      if start >= b.size {
        next, start := b.next, 0;
      }
    }

    /**
     buffer_read.  From a position past the first buffer's data it copies what the buffer has there,
     or, where inside is false, what is past the end of the buffer.
     */
    method Read(b: Buffer?, pos: nat, out: array<Byte>, size: nat, ghost handles: multiset<Ptr>) returns (ret: int, inside: bool)
      requires Valid() && Inv(World(View(), handles)) && Known(b)
      requires size <= out.Length && forall x :: x in live ==> live[x].buf != out
      requires pos < U32 && size < U32 && (b != null ==> b.capacity < U32)
      modifies out
      ensures Valid() && View() == old(View())
      ensures inside <==> b == null || pos <= b.size || size == 0 || pos + size <= b.capacity
      ensures b == null || pos <= b.size ==> ReadOk(BufferRuns.Rest(View(), Addr(b), pos), size, ret, old(out[..]), out[..])
      ensures b != null && pos > b.size && inside ==>
                ret == 0 && out[..] == if size == 0 then old(out[..]) else b.buf[pos..pos+size] + old(out[size..])
    {
      if b == null || pos <= b.size {
        ghost var r :| Ranks(View(), r);
        assert Steps(View(), r) by {
          NextLive(View(), handles);
        }
        ret := ReadAlong(b, pos, out, size, r);
        return ret, true;
      }
      if size == 0 {
        return 0, true;
      }
      inside := ReadPast(b, pos, out, size);
      return 0, inside;
    }

    /** The first turn of the loop from past the data: b->size - pos wraps, so that size bytes are copied at once. */
    method ReadPast(b: Buffer, pos: nat, out: array<Byte>, size: nat) returns (inside: bool)
      requires Valid() && Known(b) && 0 < size <= out.Length && forall x :: x in live ==> live[x].buf != out
      requires b.size < pos < U32 && size < U32 && b.capacity < U32
      modifies out
      ensures Valid() && View() == old(View())
      ensures inside <==> pos + size <= b.capacity
      ensures inside ==> out[..] == b.buf[pos..pos+size] + old(out[size..])
    {
      var copySize := (b.size - pos) % U32;
      assert copySize == U32 + b.size - pos;
      if copySize > size { copySize := size; }
      if pos + copySize > b.buf.Length {
        return false;
      }
      ghost var m := View();
      CopyBytes(out, 0, b.buf, pos, copySize);
      OneChanged(b, m);
      return true;
    }

    ghost predicate Steps(m: Memory, r: map<Ptr, nat>) {
      NULL !in m && Ranks(m, r) && forall x {:trigger RankOk(m, r, x)} :: x in m && m[x].next != NULL ==> m[x].next in m
    }

    ghost function Height(r: map<Ptr, nat>, b: Buffer?): nat {
      if b == null then 0 else if b.addr in r then r[b.addr] + 2 else 1
    }

    lemma NextKnown(m: Memory, r: map<Ptr, nat>, b: Buffer)
      requires Valid() && View() == m && Known(b) && Steps(m, r)
      ensures b.next != null ==> b.next.addr in m
      ensures Height(r, b.next) < Height(r, b)
    {
      assert Refers(live[b.addr].next);
      assert RankOk(m, r, b.addr);
    }

    lemma NextLive(m: Memory, handles: multiset<Ptr>)
      requires Exact(m, {}, handles)
      ensures forall x :: x in m && m[x].next != NULL ==> m[x].next in m
    {
      forall x | x in m && m[x].next != NULL ensures m[x].next in m {
        assert CountExact(m, {}, handles, x);
      }
    }

    /** A turn of the loop in buffer_read. */
    method ReadTurn(b: Buffer, pos: nat, out: array<Byte>, at: nat, left: nat, ghost m: Memory, ghost r: map<Ptr, nat>, ghost all: seq<Byte>, ghost was: seq<Byte>)
      returns (next: Buffer?, start: nat, end: nat, rest: nat)
      requires Reading(m, b, pos, all, at) && Steps(m, r) && left > 0
      requires |was| == out.Length && at + left <= out.Length && out[..] == Overlaid(was, all, at)
      requires forall x :: x in live ==> live[x].buf != out
      modifies out
      ensures Reading(m, next, start, all, end) && end + rest == at + left && out[..] == Overlaid(was, all, end)
      ensures rest < left || (rest == left && Height(r, next) < Height(r, b))
    {
      NextKnown(m, r, b);
      var copySize := if b.size - pos > left then left else b.size - pos;
      next, start, end := CopyNext(m, out, at, b, pos, copySize, all, was);
      rest := left - copySize;
    }

    method ReadAlong(b: Buffer?, pos: nat, out: array<Byte>, size: nat, ghost r: map<Ptr, nat>) returns (ret: int)
      requires Valid() && Steps(View(), r) && Known(b) && (b != null ==> pos <= b.size)
      requires size <= out.Length && forall x :: x in live ==> live[x].buf != out
      modifies out
      ensures Valid() && View() == old(View())
      ensures ReadOk(BufferRuns.Rest(View(), Addr(b), pos), size, ret, old(out[..]), out[..])
    {
      ghost var m, all := View(), BufferRuns.Rest(View(), Addr(b), pos);
      ghost var was := out[..];
      var cur, at: nat, from: nat, left: nat := b, 0, pos, size;
      while left != 0
        invariant Reading(m, cur, from, all, at)
        invariant at + left == size
        invariant |was| == out.Length && out[..] == Overlaid(was, all, at)
        decreases left, Height(r, cur)
      {
        if cur == null { return -1; }
        cur, from, at, left := ReadTurn(cur, from, out, at, left, m, r, all, was);
      }
      return 0;
    }
  }
}
