/**
 struct coro, in place: the coroutines that are not destroyed, and the timers of those that sleep,
 whose heap elements are embedded in them.  Other components refer to a coroutine by its id, which
 stands for its address.
 */
module Coroutines {
  import opened Basics
  import opened HeapSpec
  import HP = HeapProperties
  import opened HeapRenaming
  import opened SchedulerSpec
  import opened MinHeaps

  /** word is of co->arg, and is what _less as written takes for the timeout. */
  class Coro {
    const id: Id
    const ele: Element
    const word: int
    var status: Status
    var timeout: int

    constructor (id: Id, status: Status, word: int)
      ensures this.id == id && this.status == status && this.word == word && timeout == 0 && fresh(ele)
      ensures ele.owner == id && ele.index == 0
    {
      this.id, this.status, this.word, timeout := id, status, word, 0;
      ele := new Element(id);
    }
  }

  function Owner(e: Element): Id { e.owner }

  class Coros {
    const heap: MinHeap
    /** false: _less compares words, as the source does. */
    const byTimeout: bool
    var table: map<Id, Coro>
    /** The parts of SchedulerSpec.State kept here. */
    ghost var status: map<Id, Status>
    ghost var timeouts: map<Id, int>
    ghost var words: map<Id, int>
    ghost var timers: seq<Entry<Id>>
    ghost var repr: set<object>

    ghost predicate Valid()
      reads this, repr
    {
      && {this, heap, heap.data} <= repr && heap.members <= repr && table.Values <= repr
      && heap.Valid() && timers == Renamed(heap.view, Owner)
      && status.Keys == table.Keys
      && (forall c {:trigger CoroOk(c, table[c])} :: c in table ==> table[c].ele in repr && CoroOk(c, table[c]))
      && (forall e :: e in heap.members ==> e.owner in table && table[e.owner].ele == e)
    }

    /** A coroutine has its id, status, timeout and word; its element is its own, and in the heap if it has an index. */
    ghost predicate CoroOk(c: Id, co: Coro)
      reads this, heap, co, co.ele
    {
      FieldsOk(c, co) && IndexOk(co)
    }

    ghost predicate FieldsOk(c: Id, co: Coro)
      reads this, co
    {
      co.id == c == co.ele.owner && c in status && co.status == status[c] && co.timeout == At(timeouts, c) && co.word == At(words, c)
    }

    ghost predicate IndexOk(co: Coro)
      reads heap, co.ele
    {
      co.ele.index != 0 <==> co.ele in heap.members
    }

    constructor (maxCoro: nat, whole: bool, roomy: bool, byTimeout: bool)
      ensures Valid() && fresh(repr) && status == map[] && timers == [] && timeouts == map[] && words == map[]
      ensures heap.maxSize == maxCoro && heap.whole == whole && heap.roomy == roomy && this.byTimeout == byTimeout
    {
      heap := new MinHeap(maxCoro, whole, roomy);
      this.byTimeout := byTimeout;
      table, status, timeouts, words, timers := map[], map[], map[], map[], [];
      new;
      repr := {this, heap, heap.data};
    }

    /** coro_create */
    method New(c: Id, st: Status, word: int)
      requires Valid() && c !in status
      modifies repr
      ensures Valid() && fresh(repr - old(repr)) && timers == old(timers)
      ensures status == old(status)[c := st] && timeouts == old(timeouts)[c := 0] && words == old(words)[c := word]
    {
      var co := new Coro(c, st, word);
      Enter(co);
    }

    method Enter(co: Coro)
      requires Valid() && co.id !in status && co !in repr && co.ele !in repr
      requires co.ele.owner == co.id && co.ele.index == 0 && co.timeout == 0
      modifies this
      ensures Valid() && repr == old(repr) + {co, co.ele} && timers == old(timers)
      ensures status == old(status)[co.id := co.status] && timeouts == old(timeouts)[co.id := 0] && words == old(words)[co.id := co.word]
    {
      var c := co.id;
      table := table[c := co];
      status, timeouts, words := status[c := co.status], timeouts[c := 0], words[c := co.word];
      repr := repr + {co, co.ele};
      forall d | d in table ensures table[d].ele in repr && CoroOk(d, table[d]) {
        assert d != c ==> old(CoroOk(d, table[d]));
      }
    }

    /** coro_destroy */
    method Destroy(c: Id)
      requires Valid() && c in status && c !in HP.Items(timers)
      modifies this
      ensures Valid() && repr == old(repr)
      ensures status == old(status) - {c} && timers == old(timers) && timeouts == old(timeouts) && words == old(words)
    {
      TimerOwners(c);
      table := table - {c};
      status := status - {c};
      forall d | d in table ensures table[d].ele in repr && CoroOk(d, table[d]) {
        assert old(CoroOk(d, table[d]));
      }
    }

    method SetStatus(c: Id, st: Status)
      requires Valid() && c in status
      modifies repr
      ensures Valid() && repr == old(repr)
      ensures status == old(status)[c := st] && timers == old(timers) && timeouts == old(timeouts) && words == old(words)
    {
      assert CoroOk(c, table[c]);
      table[c].status := st;
      status := status[c := st];
      forall d | d in table ensures table[d].ele in repr && CoroOk(d, table[d]) {
        assert old(CoroOk(d, table[d]));
      }
    }

    method StatusOf(c: Id) returns (st: Status)
      requires Valid() && c in status
      ensures st == status[c]
    {
      assert CoroOk(c, table[c]);
      st := table[c].status;
    }

    /** A coroutine has a timer exactly when its element has an index. */
    lemma TimerOwners(c: Id)
      requires Valid() && c in status
      ensures c in HP.Items(timers) <==> table[c].ele.index != 0
    {
      var h, e := heap.view, table[c].ele;
      heap.ViewIsMembers();
      assert CoroOk(c, table[c]);
      if c in HP.Items(timers) {
        var i :| 0 <= i < |timers| && timers[i].item == c;
        assert h[i] in h;
        assert h[i].item in HP.Items(h);
      }
      if e in heap.members {
        var i :| 0 <= i < |h| && h[i].item == e;
        assert timers[i] in timers;
      }
    }

    method HasTimer(c: Id) returns (b: bool)
      requires Valid() && c in status
      ensures b <==> c in HP.Items(timers)
    {
      TimerOwners(c);
      b := table[c].ele.index != 0;
    }

    /** Who is at the root of the heap, and its timeout. */
    method FirstTimer() returns (r: Option<(Id, int)>)
      requires Valid()
      ensures r == if timers == [] then None else Some((timers[0].item, At(timeouts, timers[0].item)))
    {
      var e := heap.Min();
      if e == null {
        return None;
      }
      assert heap.data[1] == e && e in heap.members;
      assert CoroOk(e.owner, table[e.owner]);
      return Some((e.owner, table[e.owner].timeout));
    }

    method PopTimer()
      requires Valid() && timers != []
      modifies repr
      ensures Valid() && repr == old(repr)
      ensures status == old(status) && timeouts == old(timeouts) && words == old(words) && timers == Pop(old(timers), heap.whole)
    {
      RenamedPop(heap.view, Owner, heap.whole);
      PopHeap(Pop(heap.view, heap.whole));
    }

    method PopHeap(ghost rest: seq<Entry<Element>>)
      requires Valid() && timers != [] && rest == Pop(heap.view, heap.whole)
      modifies repr
      ensures Valid() && repr == old(repr)
      ensures status == old(status) && timeouts == old(timeouts) && words == old(words) && timers == Renamed(rest, Owner)
    {
      var _ := heap.PopMin();
      forall d | d in table ensures table[d].ele in repr && FieldsOk(d, table[d]) && IndexOk(table[d]) {
        assert old(CoroOk(d, table[d]));
        var kept := FieldsOk(d, table[d]);
        assert kept;
      }
      Follow(rest);
    }

    /** coro_sleep writes the timeout of a coroutine without a timer, and with it what _less will compare. */
    method WriteTimeout(c: Id, timeout: int)
      requires Valid() && c in table && table[c].ele.index == 0
      modifies `timeouts, table[c], table[c].ele
      ensures Valid() && timeouts == old(timeouts)[c := timeout]
      ensures table[c].ele.index == 0 && table[c].ele.key == if byTimeout then timeout else At(words, c)
    {
      assert CoroOk(c, table[c]);
      table[c].timeout := timeout;
      table[c].ele.key := if byTimeout then timeout else table[c].word;
      timeouts := timeouts[c := timeout];
      forall d | d in table ensures table[d].ele in repr && CoroOk(d, table[d]) {
        assert old(CoroOk(d, table[d]));
      }
    }

    /** coro_sleep and minheap_insert; false where that would write past the end of the heap's array. */
    method AddTimer(c: Id, timeout: int) returns (inside: bool)
      requires Valid() && c in status && c !in HP.Items(timers)
      modifies repr
      ensures Valid() && repr == old(repr)
      ensures status == old(status) && words == old(words) && timeouts == old(timeouts)[c := timeout]
      ensures var n := |old(timers)|; inside <==> n >= heap.maxSize || InsertFits(heap.roomy, heap.maxSize, n)
      ensures inside ==> timers == if |old(timers)| >= heap.maxSize then old(timers)
                                   else Insert(old(timers), Entry(c, if byTimeout then timeout else At(words, c)))
    {
      TimerOwners(c);
      assert CoroOk(c, table[c]);
      WriteTimeout(c, timeout);
      var e := table[c].ele;
      RenamedInsert(heap.view, Owner, Entry(e, e.key));
      inside := InsertHeap(e, Inserted(heap.view, e, heap.roomy, heap.maxSize));
    }

    /** The heap changes, and timers with it. */
    method InsertHeap(e: Element, ghost more: seq<Entry<Element>>) returns (inside: bool)
      requires Valid() && e in repr && e.index == 0 && e.owner in table && table[e.owner].ele == e
      requires more == Inserted(heap.view, e, heap.roomy, heap.maxSize)
      modifies repr
      ensures Valid() && repr == old(repr)
      ensures status == old(status) && timeouts == old(timeouts) && words == old(words) && timers == Renamed(more, Owner)
      ensures var n := |old(timers)|; inside <==> n >= heap.maxSize || InsertFits(heap.roomy, heap.maxSize, n)
    {
      inside := InsertElement(heap, e, more);
      forall d | d in table ensures table[d].ele in repr && FieldsOk(d, table[d]) && IndexOk(table[d]) {
        assert old(CoroOk(d, table[d]));
        var kept := FieldsOk(d, table[d]);
        assert kept;
      }
      Follow(more);
    }

    /** The heap has changed to view, and timers with it. */
    ghost method Follow(view: seq<Entry<Element>>)
      requires {this, heap, heap.data} <= repr && table.Values <= repr && status.Keys == table.Keys
      requires heap.Valid() && heap.view == view && heap.members <= repr
      requires forall x :: x in heap.members ==> x.owner in table && table[x.owner].ele == x
      requires forall d {:trigger FieldsOk(d, table[d])} :: d in table ==> table[d].ele in repr && FieldsOk(d, table[d]) && IndexOk(table[d])
      modifies `timers
      ensures Valid() && timers == Renamed(view, Owner)
    {
      timers := Renamed(view, Owner);
      forall d | d in table ensures table[d].ele in repr && CoroOk(d, table[d]) {
        assert old(FieldsOk(d, table[d]));
      }
    }
  }

  /** What the insertion of a new element leaves: where there is no room, the heap as it was. */
  ghost function Inserted(h: seq<Entry<Element>>, e: Element, roomy: bool, maxSize: nat): seq<Entry<Element>>
    reads e
  {
    if |h| < maxSize && InsertFits(roomy, maxSize, |h|) then Insert(h, Entry(e, e.key)) else h
  }

  /** minheap_insert of an element that is not in the heap. */
  method InsertElement(heap: MinHeap, e: Element, ghost more: seq<Entry<Element>>) returns (inside: bool)
    requires heap.Valid() && e.index == 0 && e !in heap.members
    requires more == Inserted(heap.view, e, heap.roomy, heap.maxSize)
    modifies heap, heap.data, heap.members`index, e`index
    ensures heap.Valid() && heap.view == more && old(heap.members) <= heap.members <= old(heap.members) + {e}
    ensures e.index != 0 <==> e in heap.members
    ensures inside <==> old(heap.size) >= heap.maxSize || InsertFits(heap.roomy, heap.maxSize, old(heap.size))
  {
    inside := heap.Insert(e);
  }
}
