/**
 src/spinlock.c, spin_lock with count == 0 and spin_unlock, run by any number of threads.  Every
 read, compare-and-swap and write of the shared fields is a step of its own; ++ and -- are a read
 and a write.  Beside the lock is the counter of testspinlock.c, incremented by whoever holds it.
 */
module SpinLock {

  /** pthread_self(): never the 0 that owner holds while the lock is free. */
  type Tid = t: nat | t != 0 witness 1

  /** Where a thread is; the name says what its next step does. */
  datatype Pc =
    | Idle
    // spin_lock
    | LockReadOwner
    | AgainRead | AgainWrite(seen: int)           // owner was this thread: ++lock_count
    | SpinRead | SpinCas                          // the loop
    | FirstRead | FirstWrite(seen: int)           // after the loop: ++lock_count
    | ClearByMtx                                  // lock_by_mtx = 0
    // spin_unlock
    | UnlockReadOwner
    | DecRead | DecWrite(seen: int)               // --lock_count
    | TestCount | TestByMtx | ClearOwner
    // ++counter, by a client that holds the lock
    | CounterRead | CounterWrite(seen: int)

  datatype Shared = Shared(owner: nat, lockCount: int, byMtx: bool, counter: int)

  datatype Local = Local(
    pc: Pc,
    depth: nat,     // spin_lock calls that returned, less spin_unlock calls that began as owner
    added: nat,     // increments of the counter completed
    result: int)    // what the last spin_unlock returned

  datatype State = State(shared: Shared, threads: map<Tid, Local>)

  /** What an idle thread calls next. */
  datatype Call = Lock | Unlock | Increment

  function Init(threads: set<Tid>): State {
    State(Shared(0, 0, false, 0), map t | t in threads :: Local(Idle, 0, 0, 0))
  }

  /** A client only touches the counter between spin_lock and spin_unlock. */
  predicate Allowed(l: Local, call: Call) {
    l.pc == Idle && call == Increment ==> l.depth > 0
  }

  /** Thread t's next step: what becomes of the shared fields and of itself. */
  function Move(sh: Shared, l: Local, t: Tid, call: Call): (Shared, Local) {
    match l.pc
    case Idle => (sh, l.(pc := match call case Lock => LockReadOwner case Unlock => UnlockReadOwner case Increment => CounterRead))
    case LockReadOwner => (sh, l.(pc := if sh.owner == t then AgainRead else SpinRead))
    case AgainRead => (sh, l.(pc := AgainWrite(sh.lockCount)))
    case AgainWrite(seen) => (sh.(lockCount := seen + 1), l.(pc := Idle, depth := l.depth + 1))
    case SpinRead => (sh, l.(pc := if sh.owner == 0 then SpinCas else SpinRead))
    case SpinCas => if sh.owner == 0 then (sh.(owner := t), l.(pc := FirstRead)) else (sh, l.(pc := SpinRead))
    case FirstRead => (sh, l.(pc := FirstWrite(sh.lockCount)))
    case FirstWrite(seen) => (sh.(lockCount := seen + 1), l.(pc := ClearByMtx))
    case ClearByMtx => (sh.(byMtx := false), l.(pc := Idle, depth := l.depth + 1))
    case UnlockReadOwner =>
      if sh.owner == t then (sh, l.(pc := DecRead, depth := if l.depth == 0 then 0 else l.depth - 1))
      else (sh, l.(pc := Idle, result := -1))
    case DecRead => (sh, l.(pc := DecWrite(sh.lockCount)))
    case DecWrite(seen) => (sh.(lockCount := seen - 1), l.(pc := TestCount))
    case TestCount => (sh, if sh.lockCount == 0 then l.(pc := TestByMtx) else l.(pc := Idle, result := 0))
    case TestByMtx =>
      // with lock_by_mtx set the source clears it and unlocks the mutex, leaving owner alone
      if sh.byMtx then (sh.(byMtx := false), l.(pc := Idle, result := 0)) else (sh, l.(pc := ClearOwner))
    case ClearOwner => (sh.(owner := 0), l.(pc := Idle, result := 0))
    case CounterRead => (sh, l.(pc := CounterWrite(sh.counter)))
    case CounterWrite(seen) => (sh.(counter := seen + 1), l.(pc := Idle, added := l.added + 1))
  }

  function Step(s: State, t: Tid, call: Call): State
    requires t in s.threads
  {
    var (sh, l) := Move(s.shared, s.threads[t], t, call);
    State(sh, s.threads[t := l])
  }

  // ---------- The invariant ----------

  /** At these points the thread is the owner. */
  predicate Owning(l: Local) {
    match l.pc
    case FirstRead | FirstWrite(_) | ClearByMtx => true
    case DecRead | DecWrite(_) | TestCount | TestByMtx | ClearOwner => true
    case _ => l.depth > 0
  }

  predicate DepthFits(l: Local) {
    match l.pc
    case SpinRead | SpinCas | FirstRead | FirstWrite(_) | ClearByMtx | TestByMtx | ClearOwner => l.depth == 0
    case AgainRead | AgainWrite(_) | CounterRead | CounterWrite(_) => l.depth > 0
    case _ => true
  }

  /** A thread knows by where it is whether it is the owner. */
  predicate LocalOk(sh: Shared, t: Tid, l: Local) {
    (sh.owner == t <==> Owning(l)) && DepthFits(l)
  }

  /** lock_count, given where its owner is; and what the owner has read and will write back is still there. */
  predicate CountOk(sh: Shared, l: Local) {
    match l.pc
    case ClearByMtx => sh.lockCount == 1
    case DecRead => sh.lockCount == l.depth + 1
    case DecWrite(seen) => seen == sh.lockCount == l.depth + 1
    case AgainWrite(seen) => seen == sh.lockCount == l.depth
    case FirstWrite(seen) => seen == sh.lockCount == l.depth
    case CounterWrite(seen) => seen == sh.counter && sh.lockCount == l.depth
    case _ => sh.lockCount == l.depth
  }

  /** The sum of the increments. */
  ghost function Sum(m: map<Tid, Local>): nat
    decreases |m|
  {
    if m == map[] then 0
    else
      var t :| t in m;
      m[t].added + Sum(m - {t})
  }

  ghost predicate Inv(s: State) {
    && (forall t :: t in s.threads ==> LocalOk(s.shared, t, s.threads[t]))
    && (if s.shared.owner == 0 then s.shared.lockCount == 0
        else s.shared.owner in s.threads && CountOk(s.shared, s.threads[s.shared.owner]))
    && !s.shared.byMtx
    && s.shared.counter == Sum(s.threads)
  }

  lemma {:induction false} SumWithout(m: map<Tid, Local>, t: Tid)
    requires t in m
    ensures Sum(m) == m[t].added + Sum(m - {t})
    decreases |m|
  {
    var u :| u in m && Sum(m) == m[u].added + Sum(m - {u});
    if u != t {
      SumWithout(m - {u}, t);
      SumWithout(m - {t}, u);
      assert m - {u} - {t} == m - {t} - {u};
    }
  }

  lemma SumAfter(m: map<Tid, Local>, t: Tid, l: Local)
    requires t in m
    ensures Sum(m[t := l]) == Sum(m) - m[t].added + l.added
  {
    SumWithout(m, t);
    SumWithout(m[t := l], t);
    assert m[t := l] - {t} == m - {t};
  }

  lemma {:induction false} SumOfZeros(m: map<Tid, Local>)
    requires forall t :: t in m ==> m[t].added == 0
    ensures Sum(m) == 0
    decreases |m|
  {
    if m != map[] {
      var t :| t in m && Sum(m) == m[t].added + Sum(m - {t});
      SumOfZeros(m - {t});
    }
  }

  lemma InitInv(threads: set<Tid>)
    ensures Inv(Init(threads))
  {
    SumOfZeros(Init(threads).threads);
  }

  /** One move of thread t: what it keeps for t, for any other thread, and for the count. */
  lemma MoveOk(sh: Shared, l: Local, t: Tid, call: Call)
    requires LocalOk(sh, t, l) && Allowed(l, call) && !sh.byMtx
    requires sh.owner == 0 ==> sh.lockCount == 0
    requires sh.owner == t ==> CountOk(sh, l)
    ensures var (sh', l') := Move(sh, l, t, call);
            && LocalOk(sh', t, l') && !sh'.byMtx
            && (sh'.owner == sh.owner || (sh.owner == 0 && sh'.owner == t) || (sh.owner == t && sh'.owner == 0))
            && (sh'.owner == 0 ==> sh'.lockCount == 0)
            && (sh'.owner == t ==> CountOk(sh', l'))
            && (sh.owner != t && sh'.owner != t ==> sh' == sh)
            && sh'.counter - sh.counter == l'.added - l.added
  {
  }

  /** Any thread's step, at any time, keeps the invariant. */
  lemma StepInv(s: State, t: Tid, call: Call)
    requires Inv(s) && t in s.threads && Allowed(s.threads[t], call)
    ensures Inv(Step(s, t, call)) && Step(s, t, call).threads.Keys == s.threads.Keys
    ensures s.threads[t].pc == SpinCas ==> (Step(s, t, call).shared.owner == t <==> s.shared.owner == 0)
  {
    MoveOk(s.shared, s.threads[t], t, call);
    var (sh, l) := Move(s.shared, s.threads[t], t, call);
    SumAfter(s.threads, t, l);
    forall u | u in s.threads && u != t ensures LocalOk(sh, u, s.threads[u]) {
      assert LocalOk(s.shared, u, s.threads[u]);
    }
  }

  // ---------- Runs ----------

  /** Which thread moves, and what it calls if it is idle. */
  datatype Turn = Turn(thread: Tid, call: Call)

  datatype Outcome = Reached(state: State) | Refused

  function Exec(s: State, turns: seq<Turn>): Outcome
    decreases |turns|
  {
    if turns == [] then Reached(s)
    else
      var m := turns[0];
      if m.thread !in s.threads || !Allowed(s.threads[m.thread], m.call) then Refused
      else Exec(Step(s, m.thread, m.call), turns[1..])
  }

  /** The invariant holds after any steps of any threads in any order. */
  lemma {:induction false} ExecInv(s: State, turns: seq<Turn>)
    requires Inv(s) && Exec(s, turns).Reached?
    ensures Inv(Exec(s, turns).state) && Exec(s, turns).state.threads.Keys == s.threads.Keys
    decreases |turns|
  {
    if turns != [] {
      var m := turns[0];
      StepInv(s, m.thread, m.call);
      ExecInv(Step(s, m.thread, m.call), turns[1..]);
    }
  }

  function ExecFromStart(threads: set<Tid>, turns: seq<Turn>): Outcome {
    Exec(Init(threads), turns)
  }

  lemma ReachedInv(threads: set<Tid>, turns: seq<Turn>)
    requires ExecFromStart(threads, turns).Reached?
    ensures Inv(ExecFromStart(threads, turns).state) && ExecFromStart(threads, turns).state.threads.Keys == threads
  {
    InitInv(threads);
    ExecInv(Init(threads), turns);
  }

  /** Between the return of its outermost spin_lock and its last write in the matching spin_unlock. */
  predicate Holds(l: Local) {
    l.depth > 0 || l.pc.DecRead? || l.pc.DecWrite? || l.pc.TestCount? || l.pc.TestByMtx? || l.pc.ClearOwner?
  }

  /** How deep the owner is in: the calls that returned, and one more once spin_lock or until spin_unlock has written the count. */
  function Nesting(l: Local): nat {
    l.depth + if l.pc == ClearByMtx || l.pc == DecRead || l.pc.DecWrite? then 1 else 0
  }

  /**
   At most one thread is past the compare-and-swap and short of the last write; who holds the lock is;
   it is the owner; and lock_count is its nesting, wherever it is.
   */
  lemma MutualExclusion(threads: set<Tid>, turns: seq<Turn>, t: Tid, u: Tid)
    requires ExecFromStart(threads, turns).Reached?
    requires var s := ExecFromStart(threads, turns).state; t in s.threads && u in s.threads
    ensures var s := ExecFromStart(threads, turns).state;
            && (Owning(s.threads[t]) && Owning(s.threads[u]) ==> t == u)
            && (Holds(s.threads[t]) ==> Owning(s.threads[t]))
            && (Owning(s.threads[t]) <==> s.shared.owner == t)
            && (Owning(s.threads[t]) ==> s.shared.lockCount == Nesting(s.threads[t]))
  {
    ReachedInv(threads, turns);
    var s := ExecFromStart(threads, turns).state;
    assert LocalOk(s.shared, t, s.threads[t]) && LocalOk(s.shared, u, s.threads[u]);
  }

  /** A lock without owner looks as it was created, and nobody holds it. */
  lemma FreeIsClean(threads: set<Tid>, turns: seq<Turn>, t: Tid)
    requires ExecFromStart(threads, turns).Reached? && t in ExecFromStart(threads, turns).state.threads
    requires ExecFromStart(threads, turns).state.shared.owner == 0
    ensures var s := ExecFromStart(threads, turns).state;
            s.shared.lockCount == 0 && !s.shared.byMtx && !Holds(s.threads[t])
  {
    ReachedInv(threads, turns);
    var s := ExecFromStart(threads, turns).state;
    assert LocalOk(s.shared, t, s.threads[t]);
  }

  /** How many increments a run completes. */
  function Increments(s: State, turns: seq<Turn>): nat
    decreases |turns|
  {
    if turns == [] || turns[0].thread !in s.threads || !Allowed(s.threads[turns[0].thread], turns[0].call) then 0
    else
      (if s.threads[turns[0].thread].pc.CounterWrite? then 1 else 0) + Increments(Step(s, turns[0].thread, turns[0].call), turns[1..])
  }

  /** Whatever the interleaving, every increment made under the lock is in the counter. */
  lemma {:induction false} NoLostUpdates(s: State, turns: seq<Turn>)
    requires Inv(s) && Exec(s, turns).Reached?
    ensures Exec(s, turns).state.shared.counter == s.shared.counter + Increments(s, turns)
    decreases |turns|
  {
    if turns != [] {
      var m := turns[0];
      StepInv(s, m.thread, m.call);
      assert LocalOk(s.shared, m.thread, s.threads[m.thread]);
      MoveOk(s.shared, s.threads[m.thread], m.thread, m.call);
      NoLostUpdates(Step(s, m.thread, m.call), turns[1..]);
    }
  }

  /** spin_unlock gets past its test exactly when the caller holds the lock; otherwise it returns -1 and changes nothing. */
  lemma UnlockByOthers(s: State, t: Tid, call: Call)
    requires Inv(s) && t in s.threads && s.threads[t].pc == UnlockReadOwner
    ensures var r := Step(s, t, call); var l := s.threads[t];
            if l.depth > 0 then r == s.(threads := s.threads[t := l.(pc := DecRead, depth := l.depth - 1)])
            else r == s.(threads := s.threads[t := l.(pc := Idle, result := -1)])
  {
    assert LocalOk(s.shared, t, s.threads[t]);
  }

  /**
   Whoever moves, the lock is freed by exactly one kind of step: its owner's last write in the
   spin_unlock that matches its outermost spin_lock.  Until then nobody else's step touches owner.
   */
  lemma FreedByOutermost(s: State, t: Tid, call: Call)
    requires Inv(s) && t in s.threads && Allowed(s.threads[t], call) && s.shared.owner != 0
    ensures var o := s.shared.owner; var r := Step(s, t, call);
            && (r.shared.owner == o || r.shared.owner == 0)
            && (r.shared.owner == 0 <==> s.threads[t].pc == ClearOwner)
            && (r.shared.owner == 0 ==> t == o && s.threads[t].depth == 0 && s.shared.lockCount == 0)
  {
    assert LocalOk(s.shared, t, s.threads[t]);
  }

  /** An inner spin_unlock leaves the lock held; the outermost one is on its way to free it, whatever the others do meanwhile. */
  lemma WaysOut(s: State, t: Tid, u: Tid, call: Call)
    requires Inv(s) && t in s.threads && u in s.threads && Allowed(s.threads[u], call)
    requires s.threads[t].pc == TestCount || s.threads[t].pc == TestByMtx || s.threads[t].pc == ClearOwner
    ensures var r := Step(s, u, call); var l := s.threads[t];
            if u != t then r.threads[t] == l && r.shared.owner == t && r.shared.lockCount == s.shared.lockCount
            else r.threads[t].pc == (if l.pc == TestCount && l.depth > 0 then Idle
                                     else if l.pc == TestCount then TestByMtx
                                     else if l.pc == TestByMtx then ClearOwner
                                     else Idle)
  {
    assert LocalOk(s.shared, t, s.threads[t]) && LocalOk(s.shared, u, s.threads[u]);
  }

  // ---------- Calls return ----------

  /** In spin_lock, for a lock that the thread does not hold, and before the swap that takes it. */
  predicate Waiting(l: Local) {
    l.pc == SpinRead || l.pc == SpinCas || (l.pc == LockReadOwner && l.depth == 0)
  }

  /** How many turns of its own a thread needs to return from the call it is in, unless it is waiting. */
  function TurnsLeft(l: Local): nat {
    match l.pc
    case Idle => 0
    case LockReadOwner => 3
    case AgainRead => 2
    case AgainWrite(_) => 1
    case SpinRead | SpinCas => 0
    case FirstRead => 3
    case FirstWrite(_) => 2
    case ClearByMtx => 1
    case UnlockReadOwner => if l.depth == 0 then 1 else if l.depth == 1 then 6 else 4
    case DecRead => if l.depth == 0 then 5 else 3
    case DecWrite(_) => if l.depth == 0 then 4 else 2
    case TestCount => if l.depth == 0 then 3 else 1
    case TestByMtx => 2
    case ClearOwner => 1
    case CounterRead => 2
    case CounterWrite(_) => 1
  }

  /** What a thread is when it has returned from that call. */
  function Returned(l: Local): Local {
    match l.pc
    case Idle | SpinRead | SpinCas => l
    case LockReadOwner | AgainRead | AgainWrite(_) | FirstRead | FirstWrite(_) | ClearByMtx => l.(pc := Idle, depth := l.depth + 1)
    case UnlockReadOwner => if l.depth == 0 then l.(pc := Idle, result := -1) else l.(pc := Idle, depth := l.depth - 1, result := 0)
    case DecRead | DecWrite(_) | TestCount | TestByMtx | ClearOwner => l.(pc := Idle, result := 0)
    case CounterRead | CounterWrite(_) => l.(pc := Idle, added := l.added + 1)
  }

  function TurnsOf(turns: seq<Turn>, t: Tid): nat {
    if turns == [] then 0 else (if turns[0].thread == t then 1 else 0) + TurnsOf(turns[1..], t)
  }

  /** One turn brings the return nearer by one. */
  ghost predicate Nearer(l: Local, r: Local) {
    !Waiting(r) && TurnsLeft(l) == TurnsLeft(r) + 1 && Returned(r) == Returned(l) && (r.pc == Idle <==> TurnsLeft(r) == 0)
  }

  predicate Unlocking(l: Local) {
    match l.pc
    case UnlockReadOwner | DecRead | DecWrite(_) | TestCount | TestByMtx | ClearOwner => true
    case _ => false
  }

  lemma UnlockTurn(s: State, t: Tid, call: Call)
    requires Inv(s) && t in s.threads && Unlocking(s.threads[t])
    ensures Nearer(s.threads[t], Step(s, t, call).threads[t])
  {
    assert LocalOk(s.shared, t, s.threads[t]);
  }

  lemma LockTurn(s: State, t: Tid, call: Call)
    requires Inv(s) && t in s.threads && !Waiting(s.threads[t])
    requires var p := s.threads[t].pc; p == LockReadOwner || p == AgainRead || p.AgainWrite? || p == FirstRead || p.FirstWrite? || p == ClearByMtx
    ensures Nearer(s.threads[t], Step(s, t, call).threads[t])
  {
    assert LocalOk(s.shared, t, s.threads[t]);
  }

  lemma OwnTurn(s: State, t: Tid, call: Call)
    requires Inv(s) && t in s.threads && s.threads[t].pc != Idle && !Waiting(s.threads[t])
    ensures Nearer(s.threads[t], Step(s, t, call).threads[t])
  {
    var l := s.threads[t];
    if Unlocking(l) {
      UnlockTurn(s, t, call);
    } else if l.pc == CounterRead || l.pc.CounterWrite? {
      assert LocalOk(s.shared, t, l);
    } else {
      LockTurn(s, t, call);
    }
  }

  /**
   Every call but a spin_lock that has to wait returns after so many turns of the caller, whatever the
   other threads do meanwhile, and with that result.
   */
  lemma {:induction false} CallsReturn(s: State, turns: seq<Turn>, t: Tid)
    requires Inv(s) && Exec(s, turns).Reached? && t in s.threads && !Waiting(s.threads[t])
    requires TurnsOf(turns, t) == TurnsLeft(s.threads[t])
    ensures var u := Exec(s, turns).state; Inv(u) && t in u.threads && u.threads[t] == Returned(s.threads[t]) && u.threads[t].pc == Idle
    decreases |turns|
  {
    if turns != [] {
      var m := turns[0];
      StepInv(s, m.thread, m.call);
      if m.thread == t { OwnTurn(s, t, m.call); }
      CallsReturn(Step(s, m.thread, m.call), turns[1..], t);
    }
  }

  /** Turns of its own that an idle thread's call takes after the one in which it begins. */
  function CallTurns(l: Local, call: Call): nat {
    match call
    case Lock => 3
    case Unlock => if l.depth == 0 then 1 else if l.depth == 1 then 6 else 4
    case Increment => 2
  }

  function CallResult(l: Local, call: Call): Local {
    match call
    case Lock => l.(depth := l.depth + 1)
    case Unlock => if l.depth == 0 then l.(result := -1) else l.(depth := l.depth - 1, result := 0)
    case Increment => l.(added := l.added + 1)
  }

  lemma Begun(s: State, t: Tid, call: Call)
    requires t in s.threads && s.threads[t].pc == Idle && (call == Lock ==> s.threads[t].depth > 0)
    ensures var l := Step(s, t, call).threads[t];
            !Waiting(l) && TurnsLeft(l) == CallTurns(s.threads[t], call) && Returned(l) == CallResult(s.threads[t], call)
  {
  }

  /** A call as a client makes it: a spin_lock by the holder, a spin_unlock by anyone, an increment. */
  lemma CallReturns(s: State, t: Tid, call: Call, turns: seq<Turn>)
    requires Inv(s) && t in s.threads && s.threads[t].pc == Idle && (call == Lock ==> s.threads[t].depth > 0)
    requires Exec(s, [Turn(t, call)] + turns).Reached? && TurnsOf(turns, t) == CallTurns(s.threads[t], call)
    ensures var u := Exec(s, [Turn(t, call)] + turns).state;
            t in u.threads && u.threads[t] == CallResult(s.threads[t], call)
  {
    StepInv(s, t, call);
    Begun(s, t, call);
    assert ([Turn(t, call)] + turns)[1..] == turns;
    CallsReturn(Step(s, t, call), turns, t);
  }

  /** The swap of a thread that waits takes a free lock. */
  lemma SwapTakes(s: State, t: Tid, call: Call)
    requires Inv(s) && t in s.threads && s.threads[t].pc == SpinCas
    ensures var r := Step(s, t, call);
            if s.shared.owner == 0 then r.shared.owner == t && Owning(r.threads[t]) && TurnsLeft(r.threads[t]) == 3
            else r.shared == s.shared && Waiting(r.threads[t])
  {
  }

  /** How many turns of its own a waiting thread needs while the lock is free. */
  function Wait(l: Local): nat {
    match l.pc
    case LockReadOwner => 3
    case SpinRead => 2
    case _ => 1
  }

  lemma WaitTurn(s: State, t: Tid, call: Call)
    requires Inv(s) && t in s.threads && Waiting(s.threads[t]) && s.shared.owner == 0
    ensures var r := Step(s, t, call);
            if s.threads[t].pc == SpinCas then r.shared.owner == t
            else r.shared.owner == 0 && Waiting(r.threads[t]) && Wait(r.threads[t]) == Wait(s.threads[t]) - 1
    ensures var l, r := s.threads[t], Step(s, t, call).threads[t]; r == l.(pc := r.pc) && (l.pc == SpinCas ==> r.pc == FirstRead)
  {
  }

  ghost predicate OwnedAt(s: State, turns: seq<Turn>, n: nat)
    requires n <= |turns|
  {
    Exec(s, turns[..n]).Reached? && Exec(s, turns[..n]).state.shared.owner != 0
  }

  /** A free lock does not stay free: once a waiting thread has had three turns somebody has taken it. */
  lemma {:induction false} SomebodyGetsIn(s: State, turns: seq<Turn>, t: Tid)
    requires Inv(s) && Exec(s, turns).Reached? && t in s.threads && Waiting(s.threads[t])
    requires s.shared.owner == 0 && TurnsOf(turns, t) >= Wait(s.threads[t])
    ensures exists n :: 0 <= n <= |turns| && OwnedAt(s, turns, n)
    decreases |turns|
  {
    var m := turns[0];
    var r := Step(s, m.thread, m.call);
    StepInv(s, m.thread, m.call);
    assert turns[..1] == [m] && turns[..1][1..] == [];
    assert Exec(s, turns[..1]) == Exec(r, []);
    if r.shared.owner != 0 {
      assert OwnedAt(s, turns, 1);
    } else {
      if m.thread == t { WaitTurn(s, t, m.call); }
      SomebodyGetsIn(r, turns[1..], t);
      var n :| 0 <= n <= |turns[1..]| && OwnedAt(r, turns[1..], n);
      assert turns[..n+1][1..] == turns[1..][..n];
      assert OwnedAt(s, turns, n+1);
    }
  }

  function Alone(t: Tid, call: Call, n: nat): (turns: seq<Turn>)
    ensures |turns| == n
  {
    seq(n, i requires 0 <= i < n => Turn(t, call))
  }

  lemma {:induction false} AloneTurns(t: Tid, call: Call, n: nat)
    ensures TurnsOf(Alone(t, call, n), t) == n
    decreases n
  {
    if n > 0 {
      assert Alone(t, call, n)[1..] == Alone(t, call, n-1);
      AloneTurns(t, call, n-1);
    }
  }

  lemma {:induction false} AloneRuns(s: State, t: Tid, call: Call, n: nat)
    requires Inv(s) && t in s.threads && call != Increment
    ensures Exec(s, Alone(t, call, n)).Reached?
    decreases n
  {
    if n > 0 {
      StepInv(s, t, call);
      assert Alone(t, call, n)[1..] == Alone(t, call, n-1);
      AloneRuns(Step(s, t, call), t, call, n-1);
    }
  }

  /** The thread has got the lock. */
  ghost predicate HasLocked(r: Outcome, t: Tid, l: Local) {
    r.Reached? && t in r.state.threads && r.state.threads[t] == l && r.state.shared.owner == t && r.state.shared.lockCount == l.depth
  }

  lemma SwappedAlone(s: State, t: Tid)
    requires Inv(s) && t in s.threads && s.threads[t].pc == FirstRead
    ensures HasLocked(Exec(s, Alone(t, Lock, 3)), t, s.threads[t].(pc := Idle, depth := 1))
  {
    assert LocalOk(s.shared, t, s.threads[t]);
    AloneRuns(s, t, Lock, 3);
    AloneTurns(t, Lock, 3);
    CallsReturn(s, Alone(t, Lock, 3), t);
    var v := Exec(s, Alone(t, Lock, 3)).state;
    assert LocalOk(v.shared, t, v.threads[t]);
  }

  lemma {:induction false} WaitsAlone(s: State, t: Tid, n: nat)
    requires Inv(s) && t in s.threads && Waiting(s.threads[t]) && s.shared.owner == 0 && n == Wait(s.threads[t]) + 3
    ensures HasLocked(Exec(s, Alone(t, Lock, n)), t, s.threads[t].(pc := Idle, depth := 1))
    decreases n
  {
    StepInv(s, t, Lock);
    WaitTurn(s, t, Lock);
    assert Alone(t, Lock, n)[1..] == Alone(t, Lock, n-1);
    if s.threads[t].pc == SpinCas {
      SwappedAlone(Step(s, t, Lock), t);
    } else {
      WaitsAlone(Step(s, t, Lock), t, n-1);
    }
  }

  /** Left to itself, a thread that calls spin_lock on a free lock returns as the owner after seven turns. */
  lemma LocksAlone(s: State, t: Tid)
    requires Inv(s) && t in s.threads && s.threads[t].pc == Idle && s.shared.owner == 0
    ensures HasLocked(Exec(s, Alone(t, Lock, 7)), t, s.threads[t].(depth := 1))
  {
    assert LocalOk(s.shared, t, s.threads[t]);
    StepInv(s, t, Lock);
    assert Alone(t, Lock, 7)[1..] == Alone(t, Lock, 6);
    WaitsAlone(Step(s, t, Lock), t, 6);
  }

  /** And spin_unlock by the holder, left to itself, returns 0. */
  lemma UnlocksAlone(s: State, t: Tid)
    requires Inv(s) && t in s.threads && s.threads[t].pc == Idle && s.threads[t].depth > 0
    ensures var l := s.threads[t]; var r := Exec(s, Alone(t, Unlock, if l.depth == 1 then 7 else 5));
            r.Reached? && t in r.state.threads && r.state.threads[t] == l.(depth := l.depth - 1, result := 0)
            && r.state.shared.owner == (if l.depth == 1 then 0 else t) && r.state.shared.lockCount == l.depth - 1
  {
    var n: nat := if s.threads[t].depth == 1 then 6 else 4;
    AloneRuns(s, t, Unlock, n+1);
    AloneTurns(t, Unlock, n);
    assert Alone(t, Unlock, n+1) == [Turn(t, Unlock)] + Alone(t, Unlock, n);
    CallReturns(s, t, Unlock, Alone(t, Unlock, n));
    AloneOwner(s, t, Unlock, n+1);
    ExecInv(s, Alone(t, Unlock, n+1));
    var v := Exec(s, Alone(t, Unlock, n+1)).state;
    assert LocalOk(v.shared, t, v.threads[t]);
    assert LocalOk(s.shared, t, s.threads[t]);
  }

  lemma {:induction false} AloneOwner(s: State, t: Tid, call: Call, n: nat)
    requires Inv(s) && t in s.threads && call != Increment && Exec(s, Alone(t, call, n)).Reached?
    ensures s.shared.owner == t || s.shared.owner == 0 ==> var o := Exec(s, Alone(t, call, n)).state.shared.owner; o == t || o == 0
    decreases n
  {
    if n > 0 {
      StepInv(s, t, call);
      assert LocalOk(s.shared, t, s.threads[t]);
      assert Alone(t, call, n)[1..] == Alone(t, call, n-1);
      AloneOwner(Step(s, t, call), t, call, n-1);
    }
  }
}
