/**
 What every run of the scheduler keeps, whichever of its slips are repaired, and what the repairs buy.
 */
module SchedulerProperties {
  import opened Basics
  import opened HeapSpec
  import opened HeapProperties
  import opened SchedulerSpec

  /** Where a spawned coroutine is agrees with its status. */
  ghost predicate Placed(s: State, c: Id)
    requires c in s.status
  {
    match s.status[c]
    case Active => (c == s.running <==> c !in s.active) && c !in Items(s.timers)
    case Sleep => c != s.running && c !in s.active
    case Die => c != s.running && c !in s.active && c !in Items(s.timers) && s.returned == Some(c)
    case _ => false
  }

  /** A full timer heap dropped it: asleep, and nothing will ever wake it. */
  ghost predicate Lost(s: State, c: Id) {
    c in s.status && s.status[c] == Sleep && c !in Items(s.timers)
  }

  ghost predicate OwnOk(cfg: Config, s: State) {
    && SELF in s.status && SELF !in Items(s.timers)
    && (s.status[SELF] == Yield || s.status[SELF] == Start || s.status[SELF] == Active)
    && (!cfg.selfYields ==> s.status[SELF] == Start && SELF !in s.active)
    && (s.status[SELF] == Yield ==> SELF !in s.active && s.running == SELF && s.returned.None?)
    && (s.returned.Some? ==> s.running == SELF && s.returned.value in s.status && s.returned.value != SELF)
    && (s.running != SELF ==> s.current == s.running)
  }

  /** The invariant but for the place of coroutine x, which is between two places, and the timers' order. */
  ghost predicate InvBut(cfg: Config, s: State, x: Id) {
    && OwnOk(cfg, s)
    && s.running in s.status
    && (forall c :: c in s.active ==> c in s.status) && NoRepeats(s.active)
    && Items(s.timers) <= s.status.Keys && Distinct(s.timers) && |s.timers| <= cfg.maxCoro
    && (forall c :: c in Items(s.timers) ==> s.status[c] == Sleep)
    && (forall c :: c in s.status && c != SELF && c != x ==> Placed(s, c))
    && (forall c :: c in s.status ==> c < s.nextId) && s.current < s.nextId
    && s.coroSize == |s.status| - 1
  }

  /** With the sift repaired the timers are in order; so they are with the expiry test as written, if timeouts are compared. */
  ghost predicate TimersOrdered(cfg: Config, s: State) {
    && (cfg.whole || (!cfg.wakeDue && cfg.byTimeout) ==> Ordered(s.timers))
    && (cfg.byTimeout ==> Keyed(s.timeouts, s.timers))
  }

  ghost predicate Inv(cfg: Config, s: State) {
    InvBut(cfg, s, SELF) && TimersOrdered(cfg, s)
  }

  /** What is compared is the timeouts. */
  ghost predicate Keyed(tm: map<Id, int>, h: seq<Entry<Id>>) {
    forall e :: e in h ==> e.key == At(tm, e.item)
  }

  lemma InitInv(cfg: Config, now: int)
    ensures Inv(cfg, Init(cfg, now))
  {
  }

  // ---------- Timers ----------

  // tm are the coroutines' timeouts.

  predicate Stops(cfg: Config, tm: map<Id, int>, e: Entry<Id>, now: int) {
    StopsAt(cfg, At(tm, e.item), now)
  }

  /** The entries check_time_out pops, in order, and the heap it leaves. */
  function Popped(cfg: Config, tm: map<Id, int>, h: seq<Entry<Id>>, now: int): seq<Entry<Id>>
    decreases |h|
  {
    if h == [] || Stops(cfg, tm, h[0], now) then [] else [h[0]] + Popped(cfg, tm, Pop(h, cfg.whole), now)
  }

  function Left(cfg: Config, tm: map<Id, int>, h: seq<Entry<Id>>, now: int): seq<Entry<Id>>
    decreases |h|
  {
    if h == [] || Stops(cfg, tm, h[0], now) then h else Left(cfg, tm, Pop(h, cfg.whole), now)
  }

  function ItemsOf(h: seq<Entry<Id>>): (r: seq<Id>)
    ensures |r| == |h|
  {
    seq(|h|, i requires 0 <= i < |h| => h[i].item)
  }

  lemma {:induction false} PoppedAndLeft(cfg: Config, tm: map<Id, int>, h: seq<Entry<Id>>, now: int)
    ensures multiset(h) == multiset(Popped(cfg, tm, h, now)) + multiset(Left(cfg, tm, h, now))
    decreases |h|
  {
    if h != [] && !Stops(cfg, tm, h[0], now) {
      PopContents(h, cfg.whole);
      PoppedAndLeft(cfg, tm, Pop(h, cfg.whole), now);
    }
  }

  /** In every version: the entries popped are those that the heap would give up to the first on which the test stops. */
  lemma {:induction false} PoppedIsPrefix(cfg: Config, tm: map<Id, int>, h: seq<Entry<Id>>, now: int)
    ensures Drain(h, cfg.whole) == Popped(cfg, tm, h, now) + Drain(Left(cfg, tm, h, now), cfg.whole)
    ensures forall e :: e in Popped(cfg, tm, h, now) ==> !Stops(cfg, tm, e, now)
    ensures var l := Left(cfg, tm, h, now); l == [] || Stops(cfg, tm, l[0], now)
    decreases |h|
  {
    if h != [] && !Stops(cfg, tm, h[0], now) {
      var g := Pop(h, cfg.whole);
      PoppedIsPrefix(cfg, tm, g, now);
      Regrouped(h[0], Popped(cfg, tm, g, now), Drain(Left(cfg, tm, g, now), cfg.whole));
    }
  }

  lemma Regrouped<T>(e: T, p: seq<T>, r: seq<T>)
    ensures [e] + (p + r) == ([e] + p) + r
    ensures forall x :: x in [e] + p <==> x == e || x in p
  {
  }

  lemma InMultiset<T>(e: T, a: seq<T>, b: multiset<T>, c: multiset<T>)
    requires multiset(a) == b + c
    ensures e in a <==> e in b || e in c
  {
    assert e in a <==> e in multiset(a);
  }

  lemma {:induction false} AllPopped(cfg: Config, tm: map<Id, int>, h: seq<Entry<Id>>, now: int)
    requires forall e :: e in h ==> !Stops(cfg, tm, e, now)
    ensures Left(cfg, tm, h, now) == []
  {
    var l := Left(cfg, tm, h, now);
    PoppedIsPrefix(cfg, tm, h, now);
    PoppedAndLeft(cfg, tm, h, now);
    if l != [] {
      InMultiset(l[0], h, multiset(Popped(cfg, tm, h, now)), multiset(l));
    }
  }

  lemma OrderedLeast<T>(h: seq<Entry<T>>, e: Entry<T>)
    requires Ordered(h) && e in h
    ensures h[0].key <= e.key
  {
    var i :| 0 <= i < |h| && h[i] == e;
    RootIsLeast(h, i+1);
  }

  // ---------- The expiry test as written ----------

  /** The heap has a sleeper with the earliest timeout at its root. */
  ghost predicate EarliestFirst(tm: map<Id, int>, h: seq<Entry<Id>>) {
    forall e :: e in h ==> At(tm, h[0].item) <= At(tm, e.item)
  }

  ghost predicate AllOrNothing(cfg: Config, tm: map<Id, int>, h: seq<Entry<Id>>, now: int) {
    Popped(cfg, tm, h, now) == [] || Left(cfg, tm, h, now) == []
  }

  lemma KeyedEarliestFirst(tm: map<Id, int>, h: seq<Entry<Id>>)
    requires Ordered(h) && Keyed(tm, h)
    ensures EarliestFirst(tm, h)
  {
    forall e | e in h ensures At(tm, h[0].item) <= At(tm, e.item) {
      OrderedLeast(h, e);
      assert h[0] in h;
    }
  }

  /** With the test as written a look at the timers wakes nobody if some timeout is past, and everybody otherwise. */
  lemma AsWrittenPops(cfg: Config, tm: map<Id, int>, h: seq<Entry<Id>>, now: int)
    requires !cfg.wakeDue && EarliestFirst(tm, h)
    ensures (exists e :: e in h && At(tm, e.item) < now) ==> Popped(cfg, tm, h, now) == [] && Left(cfg, tm, h, now) == h
    ensures !(exists e :: e in h && At(tm, e.item) < now) ==> Left(cfg, tm, h, now) == []
  {
    if !(exists e :: e in h && At(tm, e.item) < now) {
      AllPopped(cfg, tm, h, now);
    }
  }

  /** That is so, at every time, exactly when the earliest sleeper is at the root, as it is if timeouts are compared. */
  lemma AllOrNothingIff(cfg: Config, tm: map<Id, int>, h: seq<Entry<Id>>)
    requires !cfg.wakeDue
    ensures (forall now :: AllOrNothing(cfg, tm, h, now)) <==> EarliestFirst(tm, h)
  {
    if EarliestFirst(tm, h) {
      forall now ensures AllOrNothing(cfg, tm, h, now) {
        AsWrittenPops(cfg, tm, h, now);
      }
    } else {
      var e :| e in h && At(tm, e.item) < At(tm, h[0].item);
      RootButNotAll(cfg, tm, h, e, At(tm, h[0].item));
    }
  }

  lemma RootButNotAll(cfg: Config, tm: map<Id, int>, h: seq<Entry<Id>>, e: Entry<Id>, now: int)
    requires !cfg.wakeDue && e in h && At(tm, e.item) < At(tm, h[0].item) == now
    ensures !AllOrNothing(cfg, tm, h, now)
  {
    assert Popped(cfg, tm, h, now) != [];
    LeftIfStops(cfg, tm, h, e, now);
  }

  /** An entry on which the test stops is left. */
  lemma LeftIfStops(cfg: Config, tm: map<Id, int>, h: seq<Entry<Id>>, e: Entry<Id>, now: int)
    requires e in h && Stops(cfg, tm, e, now)
    ensures e in Left(cfg, tm, h, now)
  {
    PoppedIsPrefix(cfg, tm, h, now);
    PoppedAndLeft(cfg, tm, h, now);
    InMultiset(e, h, multiset(Popped(cfg, tm, h, now)), multiset(Left(cfg, tm, h, now)));
  }

  /** In whatever order: the sleepers woken are those that are due exactly when every timeout is this very tick. */
  lemma AsWrittenPopsDueIff(cfg: Config, tm: map<Id, int>, h: seq<Entry<Id>>, now: int)
    requires !cfg.wakeDue
    ensures (forall e :: e in h ==> (e in Popped(cfg, tm, h, now) <==> At(tm, e.item) <= now)) <==>
            (forall e :: e in h ==> At(tm, e.item) == now)
  {
    var p := Popped(cfg, tm, h, now);
    PoppedIsPrefix(cfg, tm, h, now);
    PoppedAndLeft(cfg, tm, h, now);
    if forall e :: e in h ==> (e in p <==> At(tm, e.item) <= now) {
      NoneDueEarly(cfg, tm, h, now);
    }
    if forall e :: e in h ==> At(tm, e.item) == now {
      AllPopped(cfg, tm, h, now);
      forall e | e in h ensures e in p {
        InMultiset(e, h, multiset(p), multiset{});
      }
    }
  }

  lemma NoneDueEarly(cfg: Config, tm: map<Id, int>, h: seq<Entry<Id>>, now: int)
    requires !cfg.wakeDue && forall e :: e in h ==> (e in Popped(cfg, tm, h, now) <==> At(tm, e.item) <= now)
    ensures forall e :: e in h ==> At(tm, e.item) == now
  {
    var p := Popped(cfg, tm, h, now);
    PoppedIsPrefix(cfg, tm, h, now);
    forall e | e in h ensures At(tm, e.item) >= now {
      assert e in p ==> !Stops(cfg, tm, e, now);
    }
    AllPopped(cfg, tm, h, now);
    PoppedAndLeft(cfg, tm, h, now);
    forall e | e in h ensures e in p {
      InMultiset(e, h, multiset(p), multiset{});
    }
  }

  /** As written, but with timeouts compared, of two sleepers due at 5 and 9 none is woken at 7, and at 3 both are. */
  lemma ReversedTestCounterexample()
    ensures var h := [Entry(1, 5), Entry(2, 9)]; var cfg := AsWritten(2).(byTimeout := true); var tm := map[1 := 5, 2 := 9];
            Ordered(h) && Keyed(tm, h) && Popped(cfg, tm, h, 7) == [] && Popped(cfg, tm, h, 3) == h
  {
    var h := [Entry(1, 5), Entry(2, 9)];
    var cfg, tm := AsWritten(2).(byTimeout := true), map[1 := 5, 2 := 9];
    assert AboveParent(h, 2);
    assert Behead(h) == [Entry(2, 9)];
    assert Pop(h, false) == [Entry(2, 9)];
    assert Pop([Entry(2, 9)], false) == [];
    assert Popped(cfg, tm, [Entry(2, 9)], 3) == [Entry(2, 9)] + Popped(cfg, tm, [], 3);
  }

  // ---------- The cast in _less ----------

  /**
   As written, two coroutines with the same word that go to sleep until 9 and then until 5 sit in
   that order; at 7 the later one is woken, and the earlier one is left, neither all nor nothing.
   */
  lemma CastCounterexample()
    ensures var cfg := AsWritten(3); var tm := map[1 := 9, 2 := 5];
            var h := AddTimer(cfg, AddTimer(cfg, [], 1, 0), 2, 0);
            h == [Entry(1, 0), Entry(2, 0)] && Ordered(h) &&
            Popped(cfg, tm, h, 7) == [Entry(1, 0)] && Left(cfg, tm, h, 7) == [Entry(2, 0)]
  {
    var cfg, tm := AsWritten(3), map[1 := 9, 2 := 5];
    assert Insert([], Entry(1, 0)) == [Entry(1, 0)];
    var h := [Entry(1, 0)] + [Entry(2, 0)];
    assert Insert([Entry(1, 0)], Entry(2, 0)) == h;
    assert AboveParent(h, 2);
    assert Behead(h) == [Entry(2, 0)] == Pop(h, false);
    assert Popped(cfg, tm, [Entry(2, 0)], 7) == [];
  }

  /** As written, a look at the timers can then leave them out of order. */
  lemma CastBreaksOrder()
    ensures var cfg := AsWritten(4); var tm := map[1 := 9, 2 := 5, 3 := 5];
            var h := [Entry(1, 1), Entry(2, 2), Entry(3, 3)];
            Ordered(h) && Left(cfg, tm, h, 7) == [Entry(3, 3), Entry(2, 2)] && !Ordered(Left(cfg, tm, h, 7))
  {
    var cfg, tm := AsWritten(4), map[1 := 9, 2 := 5, 3 := 5];
    var h, g := [Entry(1, 1), Entry(2, 2), Entry(3, 3)], [Entry(3, 3), Entry(2, 2)];
    assert AboveParent(h, 2) && AboveParent(h, 3) && !AboveParent(g, 2);
    assert Behead(h) == g;
    assert Preferred(g, 1, 1) == 1;
    assert Pop(h, false) == g;
    assert Left(cfg, tm, g, 7) == g;
  }

  /** Sleepers in the order of their timeouts. */
  ghost predicate Chronological(tm: map<Id, int>, d: seq<Entry<Id>>) {
    forall i, j :: 0 <= i < j < |d| ==> At(tm, d[i].item) <= At(tm, d[j].item)
  }

  ghost predicate NoneDue(tm: map<Id, int>, h: seq<Entry<Id>>, now: int) {
    forall e :: e in h ==> At(tm, e.item) > now
  }

  /**
   With the test repaired, whatever _less compares: nobody who is due is left, at any time, exactly
   when the heap gives the sleepers in the order of their timeouts.
   */
  lemma NoneLeftDueIff(cfg: Config, tm: map<Id, int>, h: seq<Entry<Id>>)
    requires cfg.wakeDue
    ensures (forall now :: NoneDue(tm, Left(cfg, tm, h, now), now)) <==> Chronological(tm, Drain(h, cfg.whole))
  {
    var d := Drain(h, cfg.whole);
    if Chronological(tm, d) {
      forall now ensures NoneDue(tm, Left(cfg, tm, h, now), now) {
        ChronologicalNoneDue(cfg, tm, h, now);
      }
    } else {
      var i, j :| 0 <= i < j < |d| && At(tm, d[i].item) > At(tm, d[j].item);
      DueButLeft(cfg, tm, h, i, j);
    }
  }

  lemma ChronologicalNoneDue(cfg: Config, tm: map<Id, int>, h: seq<Entry<Id>>, now: int)
    requires cfg.wakeDue && Chronological(tm, Drain(h, cfg.whole))
    ensures NoneDue(tm, Left(cfg, tm, h, now), now)
  {
    var l := Left(cfg, tm, h, now);
    PoppedIsPrefix(cfg, tm, h, now);
    ChronologicalRest(tm, Popped(cfg, tm, h, now), Drain(l, cfg.whole));
    forall e | e in l ensures At(tm, e.item) > now {
      DrainMembers(l, cfg.whole, e);
      NoneEarlier(tm, Drain(l, cfg.whole), e);
    }
  }

  lemma ChronologicalRest(tm: map<Id, int>, p: seq<Entry<Id>>, r: seq<Entry<Id>>)
    requires Chronological(tm, p + r)
    ensures Chronological(tm, r)
  {
    var d := p + r;
    forall i, j | 0 <= i < j < |r| ensures At(tm, r[i].item) <= At(tm, r[j].item) {
      assert d[|p|+i] == r[i] && d[|p|+j] == r[j];
    }
  }

  lemma NoneEarlier(tm: map<Id, int>, r: seq<Entry<Id>>, e: Entry<Id>)
    requires Chronological(tm, r) && e in r
    ensures At(tm, r[0].item) <= At(tm, e.item)
  {
    var k :| 0 <= k < |r| && r[k] == e;
    assert k > 0 ==> At(tm, r[0].item) <= At(tm, r[k].item);
  }

  lemma DrainMembers<T>(h: seq<Entry<T>>, whole: bool, e: Entry<T>)
    requires h != []
    ensures Drain(h, whole) != [] && Drain(h, whole)[0] == h[0]
    ensures e in h <==> e in Drain(h, whole)
  {
    DrainContents(h, whole);
    assert e in h <==> e in multiset(h);
    assert e in Drain(h, whole) <==> e in multiset(Drain(h, whole));
  }

  lemma DueButLeft(cfg: Config, tm: map<Id, int>, h: seq<Entry<Id>>, i: nat, j: nat)
    requires cfg.wakeDue && i < j < |h|
    requires At(tm, Drain(h, cfg.whole)[i].item) > At(tm, Drain(h, cfg.whole)[j].item)
    ensures var now := At(tm, Drain(h, cfg.whole)[j].item); !NoneDue(tm, Left(cfg, tm, h, now), now)
  {
    var d := Drain(h, cfg.whole);
    var now := At(tm, d[j].item);
    var l := Left(cfg, tm, h, now);
    PoppedIsPrefix(cfg, tm, h, now);
    BehindTheFirst(Popped(cfg, tm, h, now), Drain(l, cfg.whole), i, j);
    DrainMembers(l, cfg.whole, d[j]);
  }

  lemma BehindTheFirst<T>(p: seq<T>, r: seq<T>, i: nat, j: nat)
    requires i < j < |p + r|
    ensures (p + r)[i] in p || (r != [] && (p + r)[j] in r)
  {
    if i >= |p| {
      assert (p + r)[j] == r[j-|p|];
    } else {
      assert (p + r)[i] == p[i];
    }
  }

  // ---------- The repaired test ----------

  /**
   The heap stays in order in both versions.  As written, with timeouts compared, it is only ever
   inserted into or popped until empty: once the test lets the first sleeper go, it lets every one go.
   */
  lemma {:induction false} LeftOrdered(cfg: Config, tm: map<Id, int>, h: seq<Entry<Id>>, now: int)
    requires cfg.whole || (!cfg.wakeDue && Keyed(tm, h))
    requires Ordered(h)
    ensures Ordered(Left(cfg, tm, h, now))
    decreases |h|
  {
    if h != [] && !Stops(cfg, tm, h[0], now) {
      if cfg.whole {
        PopOrdered(h);
        LeftOrdered(cfg, tm, Pop(h, cfg.whole), now);
      } else {
        KeyedEarliestFirst(tm, h);
        AsWrittenPops(cfg, tm, h, now);
        assert h[0] in h;
      }
    }
  }

  lemma PopKeyed(tm: map<Id, int>, h: seq<Entry<Id>>, whole: bool)
    requires h != [] && Keyed(tm, h)
    ensures Keyed(tm, Pop(h, whole))
  {
    PopContents(h, whole);
    forall e | e in Pop(h, whole) ensures e.key == At(tm, e.item) {
      InMultiset(e, h, multiset{h[0]}, multiset(Pop(h, whole)));
    }
  }

  lemma {:induction false} LeftKeyed(cfg: Config, tm: map<Id, int>, h: seq<Entry<Id>>, now: int)
    requires Keyed(tm, h)
    ensures Keyed(tm, Left(cfg, tm, h, now))
    decreases |h|
  {
    if h != [] && !Stops(cfg, tm, h[0], now) {
      PopKeyed(tm, h, cfg.whole);
      LeftKeyed(cfg, tm, Pop(h, cfg.whole), now);
    }
  }

  /** Repaired, exactly the sleepers due are popped, earliest first. */
  lemma {:induction false} RepairedPopsDue(cfg: Config, tm: map<Id, int>, h: seq<Entry<Id>>, now: int)
    requires cfg.wakeDue && cfg.whole && Ordered(h) && Keyed(tm, h)
    ensures Sorted(Popped(cfg, tm, h, now))
    ensures forall e :: e in multiset(Popped(cfg, tm, h, now)) ==> At(tm, e.item) <= now
    ensures forall e :: e in multiset(Left(cfg, tm, h, now)) ==> At(tm, e.item) > now
    decreases |h|
  {
    if h == [] || Stops(cfg, tm, h[0], now) {
      forall e | e in multiset(Left(cfg, tm, h, now)) ensures At(tm, e.item) > now {
        OrderedLeast(h, e);
        assert h[0] in h;
      }
    } else {
      var g := Pop(h, true);
      PopOrdered(h);
      PopKeyed(tm, h, true);
      RepairedPopsDue(cfg, tm, g, now);
      PoppedAndLeft(cfg, tm, g, now);
      PopContents(h, true);
      LeastFirst(h, g, Popped(cfg, tm, g, now), multiset(Left(cfg, tm, g, now)));
      SortedFront(h[0], Popped(cfg, tm, g, now));
    }
  }

  lemma LeastFirst(h: seq<Entry<Id>>, g: seq<Entry<Id>>, p: seq<Entry<Id>>, l: multiset<Entry<Id>>)
    requires h != [] && Ordered(h) && multiset(h) == multiset{h[0]} + multiset(g) && multiset(g) == multiset(p) + l
    ensures AtLeast(multiset(p), h[0].key)
  {
    forall e | e in multiset(p) ensures h[0].key <= e.key {
      InMultiset(e, g, multiset(p), l);
      InMultiset(e, h, multiset{h[0]}, multiset(g));
      OrderedLeast(h, e);
    }
  }

  // ---------- Every step keeps the invariant ----------

  lemma {:induction false} DistinctIsCount<T>(h: seq<Entry<T>>)
    ensures |Items(h)| <= |h|
    ensures Distinct(h) <==> |Items(h)| == |h|
    decreases |h|
  {
    if h != [] {
      var g, e := h[..|h|-1], h[|h|-1];
      DistinctIsCount(g);
      assert h == g + [e];
      assert Items(h) == Items(g) + {e.item};
      assert e.item in Items(g) <==> exists i :: 0 <= i < |g| && g[i].item == e.item;
      assert Distinct(h) <==> Distinct(g) && e.item !in Items(g);
    }
  }

  lemma PopDistinct<T>(h: seq<Entry<T>>, whole: bool)
    requires h != [] && Distinct(h)
    ensures Distinct(Pop(h, whole)) && h[0].item !in Items(Pop(h, whole))
    ensures Items(h) == Items(Pop(h, whole)) + {h[0].item}
  {
    PopItems(h, whole);
    DistinctIsCount(h);
    DistinctIsCount(Pop(h, whole));
  }

  lemma InsertDistinct<T>(h: seq<Entry<T>>, e: Entry<T>)
    requires Distinct(h) && e.item !in Items(h)
    ensures Distinct(Insert(h, e)) && Items(Insert(h, e)) == Items(h) + {e.item}
  {
    InsertItems(h, e);
    DistinctIsCount(h);
    DistinctIsCount(Insert(h, e));
  }

  /** Coroutine c is not touched by waking others. */
  ghost predicate SameCoro(s: State, t: State, c: Id) {
    && (c in s.status <==> c in t.status) && (c in s.status ==> t.status[c] == s.status[c])
    && (c in s.active <==> c in t.active)
  }

  ghost predicate Asleep(s: State) {
    Known(s) && Distinct(s.timers) && forall c :: c in Items(s.timers) ==> s.status[c] == Sleep
  }

  function WakeFirst(cfg: Config, s: State): State
    requires s.timers != [] && s.timers[0].item in s.status
  {
    Wake(s, s.timers[0].item).(timers := Pop(s.timers, cfg.whole))
  }

  lemma FirstAsleep(cfg: Config, s: State)
    requires Asleep(s) && s.timers != []
    ensures var co := s.timers[0].item;
            co in s.status && s.status[co] == Sleep && Asleep(WakeFirst(cfg, s)) && WakeFirst(cfg, s).active == s.active + [co]
  {
    PopDistinct(s.timers, cfg.whole);
    assert s.timers[0] in s.timers;
    assert s.timers[0].item in Items(s.timers);
  }

  lemma WakeKeeps(cfg: Config, s: State, x: Id)
    requires InvBut(cfg, s, x) && s.timers != [] && x !in Items(s.timers)
    ensures s.timers[0].item in s.status && InvBut(cfg, WakeFirst(cfg, s), x)
    ensures Items(WakeFirst(cfg, s).timers) <= Items(s.timers)
  {
    var co := s.timers[0].item;
    PopDistinct(s.timers, cfg.whole);
    assert s.timers[0] in s.timers;
    assert co in Items(s.timers);
    var t := WakeFirst(cfg, s);
    forall c | c in t.status && c != SELF && c != x ensures Placed(t, c) {
      assert Placed(s, c);
    }
  }

  lemma {:induction false} CheckTimeOutInv(cfg: Config, s: State, x: Id, now: int)
    requires InvBut(cfg, s, x) && x !in Items(s.timers)
    ensures InvBut(cfg, CheckTimeOut(cfg, s, now), x)
    ensures Items(CheckTimeOut(cfg, s, now).timers) <= Items(s.timers)
    decreases |s.timers|
  {
    if s.timers != [] && !Stops(cfg, s.timeouts, s.timers[0], now) {
      WakeKeeps(cfg, s, x);
      CheckTimeOutInv(cfg, WakeFirst(cfg, s), x, now);
    }
  }

  lemma WakeSame(cfg: Config, s: State, c: Id)
    requires Known(s) && s.timers != [] && c !in Items(s.timers)
    ensures s.timers[0].item in s.status && SameCoro(s, WakeFirst(cfg, s), c) && c !in Items(WakeFirst(cfg, s).timers)
    ensures Known(WakeFirst(cfg, s))
  {
    PopItems(s.timers, cfg.whole);
    assert s.timers[0] in s.timers;
    assert s.timers[0].item in Items(s.timers);
  }

  lemma {:induction false} CheckTimeOutSame(cfg: Config, s: State, now: int, c: Id)
    requires Known(s) && c !in Items(s.timers)
    ensures SameCoro(s, CheckTimeOut(cfg, s, now), c)
    decreases |s.timers|
  {
    if s.timers != [] && !Stops(cfg, s.timeouts, s.timers[0], now) {
      WakeSame(cfg, s, c);
      CheckTimeOutSame(cfg, WakeFirst(cfg, s), now, c);
    }
  }

  /** Who has no timer is not touched. */
  lemma TickSame(cfg: Config, s: State, now: int, c: Id)
    requires Known(s) && c !in Items(s.timers)
    ensures SameCoro(s, Tick(cfg, s, now), c)
  {
    if s.ti >= 100 && now >= s.nextCheck {
      CheckTimeOutSame(cfg, s.(ti := 0), now, c);
    }
  }

  lemma ItemsOfFront(q: seq<Id>, e: Entry<Id>, rest: seq<Entry<Id>>)
    ensures q + ItemsOf([e] + rest) == (q + [e.item]) + ItemsOf(rest)
  {
  }

  /** What check_time_out does: the popped sleepers go to the back of active_list, in the order popped. */
  lemma {:induction false} CheckTimeOutMoves(cfg: Config, s: State, now: int)
    requires Asleep(s)
    ensures CheckTimeOut(cfg, s, now).timers == Left(cfg, s.timeouts, s.timers, now)
    ensures CheckTimeOut(cfg, s, now).active == s.active + ItemsOf(Popped(cfg, s.timeouts, s.timers, now))
    decreases |s.timers|
  {
    if s.timers != [] && !Stops(cfg, s.timeouts, s.timers[0], now) {
      FirstAsleep(cfg, s);
      var t := WakeFirst(cfg, s);
      CheckTimeOutMoves(cfg, t, now);
      ItemsOfFront(s.active, s.timers[0], Popped(cfg, t.timeouts, t.timers, now));
    }
  }

  lemma TickTimers(cfg: Config, s: State, now: int)
    requires TimersOrdered(cfg, s)
    ensures TimersOrdered(cfg, s.(timers := Left(cfg, s.timeouts, s.timers, now)))
  {
    if cfg.byTimeout {
      LeftKeyed(cfg, s.timeouts, s.timers, now);
    }
    if cfg.whole || (!cfg.wakeDue && cfg.byTimeout) {
      LeftOrdered(cfg, s.timeouts, s.timers, now);
    }
  }

  lemma TickBut(cfg: Config, s: State, x: Id, now: int)
    requires InvBut(cfg, s, x) && x !in Items(s.timers)
    ensures InvBut(cfg, Tick(cfg, s, now), x) && Items(Tick(cfg, s, now).timers) <= Items(s.timers)
  {
    if s.ti >= 100 && now >= s.nextCheck {
      CheckTimeOutInv(cfg, s.(ti := 0), x, now);
    }
  }

  lemma TickOrdered(cfg: Config, s: State, now: int)
    requires Asleep(s) && TimersOrdered(cfg, s)
    ensures TimersOrdered(cfg, Tick(cfg, s, now))
  {
    if s.ti >= 100 && now >= s.nextCheck {
      var u := s.(ti := 0);
      CheckTimeOutMoves(cfg, u, now);
      CheckTimeOutKeeps(cfg, u, now);
      TickTimers(cfg, u, now);
    }
  }

  lemma TickInv(cfg: Config, s: State, x: Id, now: int)
    requires InvBut(cfg, s, x) && x !in Items(s.timers) && TimersOrdered(cfg, s)
    ensures InvBut(cfg, Tick(cfg, s, now), x) && TimersOrdered(cfg, Tick(cfg, s, now))
    ensures Items(Tick(cfg, s, now).timers) <= Items(s.timers)
  {
    TickBut(cfg, s, x, now);
    TickOrdered(cfg, s, now);
  }

  /** The switch puts the coroutine that left in its place and takes the next one out of its own. */
  lemma DispatchInv(cfg: Config, s: State)
    requires var x := s.running;
             InvBut(cfg, s, x) && s.returned.None? &&
             if x == SELF then s.active != []
             else x !in s.active && ((s.status[x] == Yield && x !in Items(s.timers)) || s.status[x] == Sleep)
    ensures var r := Dispatch(s, s.running);
            && (r.None? <==> s.active != [] && s.active[0] == s.running)
            && (r.Some? ==> InvBut(cfg, r.value, SELF) && r.value.timers == s.timers)
  {
    var x := s.running;
    var r := Dispatch(s, x);
    if r.Some? {
      var t := r.value;
      forall c | c in t.status && c != SELF ensures Placed(t, c) {
        if c != x { assert Placed(s, c); }
      }
    }
  }

  lemma SpawnInv(cfg: Config, s: State, word: int)
    requires Inv(cfg, s) && Enabled(s, Spawn(word))
    ensures Inv(cfg, SpawnStep(s, word))
  {
    var t := SpawnStep(s, word);
    assert t.status.Keys == s.status.Keys + {s.nextId};
    assert s.nextId !in s.status.Keys;
    forall c | c in t.status && c != SELF ensures Placed(t, c) {
      if c != s.nextId { assert Placed(s, c); }
    }
  }

  lemma CollectInv(cfg: Config, s: State)
    requires Inv(cfg, s) && Enabled(s, Collect)
    ensures Inv(cfg, CollectStep(s))
  {
    var t := CollectStep(s);
    var co := s.returned.value;
    assert Placed(s, co);
    if s.status[co] == Die {
      assert t.status.Keys == s.status.Keys - {co};
    }
    forall c | c in t.status && c != SELF ensures Placed(t, c) {
      assert Placed(s, c);
    }
  }

  lemma FinishInv(cfg: Config, s: State)
    requires Inv(cfg, s) && Enabled(s, Finish)
    ensures Inv(cfg, DieStep(s))
  {
    var t := DieStep(s);
    assert t.status.Keys == s.status.Keys;
    assert Placed(s, s.running);
    forall c | c in t.status && c != SELF ensures Placed(t, c) {
      assert Placed(s, c);
    }
  }

  lemma YieldInv(cfg: Config, s: State, now: int)
    requires Inv(cfg, s) && s.running != SELF
    ensures var r := YieldStep(cfg, s, now); r.Some? && Inv(cfg, r.value)
  {
    var x := s.running;
    var u := s.(status := s.status[x := Yield]);
    assert u.status.Keys == s.status.Keys;
    assert Placed(s, x);
    assert InvBut(cfg, u, x) by {
      forall c | c in u.status && c != SELF && c != x ensures Placed(u, c) {
        assert Placed(s, c);
      }
    }
    TickInv(cfg, u, x, now);
    TickKeeps(cfg, u, now);
    TickSame(cfg, u, now, x);
    DispatchInv(cfg, Tick(cfg, u, now));
  }

  lemma SleptTimers(cfg: Config, s: State, timeout: int)
    requires TimersOrdered(cfg, s) && s.running !in Items(s.timers)
    ensures TimersOrdered(cfg, Slept(cfg, s, timeout))
  {
    var x, t := s.running, Slept(cfg, s, timeout);
    var n := Entry(x, SleepKey(cfg, s, x, timeout));
    if Ordered(s.timers) { InsertOrdered(s.timers, n); }
    InsertContents(s.timers, n);
    if cfg.byTimeout {
      forall e | e in t.timers ensures e.key == At(t.timeouts, e.item) {
        if |s.timers| < cfg.maxCoro {
          InMultiset(e, t.timers, multiset(s.timers), multiset{n});
        }
        assert e in s.timers ==> e.item in Items(s.timers);
      }
    }
  }

  lemma SleptInv(cfg: Config, s: State, timeout: int)
    requires Inv(cfg, s) && s.running != SELF
    ensures InvBut(cfg, Slept(cfg, s, timeout), s.running) && s.running !in s.active && s.running !in Items(s.timers)
  {
    var x, u := s.running, Slept(cfg, s, timeout);
    assert Placed(s, x);
    InsertDistinct(s.timers, Entry(x, SleepKey(cfg, s, x, timeout)));
    assert u.status.Keys == s.status.Keys;
    forall c | c in u.status && c != SELF && c != x ensures Placed(u, c) {
      assert Placed(s, c);
    }
  }

  /** Going to sleep fails exactly where the heap's array is too short for one more. */
  lemma SleepInv(cfg: Config, s: State, timeout: int)
    requires Inv(cfg, s) && s.running != SELF
    ensures var r := SleepStep(cfg, s, timeout);
            (r.None? <==> Overflows(cfg, s.timers)) && (r.Some? ==> Inv(cfg, r.value))
  {
    SleptInv(cfg, s, timeout);
    SleptTimers(cfg, s, timeout);
    DispatchInv(cfg, Slept(cfg, s, timeout));
  }

  lemma LoopInv(cfg: Config, s: State, now: int)
    requires Inv(cfg, s) && Enabled(s, Loop(now))
    ensures var r := LoopStep(cfg, s, now);
            (r.None? <==> s.active != [] && s.active[0] == SELF) && (r.Some? ==> Inv(cfg, r.value))
  {
    TickInv(cfg, s, SELF, now);
    TickKeeps(cfg, s, now);
    var t := Tick(cfg, s, now);
    TickSame(cfg, s, now, SELF);
    if t.active != [] {
      DispatchInv(cfg, t);
    }
  }

  /** The scheduler is about to take its own coroutine off the head of active_list. */
  predicate OwnFirst(s: State, op: Op) {
    op.Loop? && s.active != [] && s.active[0] == SELF
  }

  /**
   Every step keeps the invariant.  Two things can go wrong: the assertion in _sche_next, exactly when
   the scheduler takes its own coroutine off the head of active_list, and a write past the end of the
   timer heap's array.
   */
  lemma StepInv(cfg: Config, s: State, op: Op)
    requires Inv(cfg, s) && Enabled(s, op)
    ensures var r := Step(cfg, s, op);
            (r.None? <==> OwnFirst(s, op) || (op.DoSleep? && Overflows(cfg, s.timers))) && (r.Some? ==> Inv(cfg, r.value))
  {
    match op
    case Spawn(word) => SpawnInv(cfg, s, word);
    case Loop(now) => LoopInv(cfg, s, now);
    case Collect => CollectInv(cfg, s);
    case DoYield(now) => YieldInv(cfg, s, now);
    case DoSleep(timeout) => SleepInv(cfg, s, timeout);
    case Finish => FinishInv(cfg, s);
  }

  /** What the methods of Schedulers.Scheduler ask for holds wherever the invariant does. */
  lemma Ready(cfg: Config, s: State)
    requires Inv(cfg, s)
    ensures Known(s) && s.nextId !in s.status
    ensures s.running != SELF ==> s.running !in Items(s.timers)
  {
    if s.running != SELF {
      assert Placed(s, s.running);
    }
  }
}
