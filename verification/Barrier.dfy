/**
 The barrier of src/sync.c, run by any number of threads.  Releasing the mutex and going to sleep
 is one step, as pthread_cond_wait promises; a sleeper may also wake for no reason.
 */
module Barrier {

  type Tid = t: nat | t != 0 witness 1

  /** Where a thread is in barrior_wait; the name says what its next step does. */
  datatype Pc =
    | Outside                      // has not called it
    | Lock
    | DecRead | DecWrite(seen: int)
    | TestZero                     // if(0 == wait_count)
    | Broadcast
    | LoopTest                     // while(wait_count > 0)
    | Wait                         // condition_wait: unlock and sleep
    | Asleep
    | Relock                       // woken, still inside condition_wait
    | Unlock
    | Returned

  datatype State = State(waitCount: int, mutex: nat, pc: map<Tid, Pc>)

  /** barrior_create */
  function Init(waitCount: int, threads: set<Tid>): State {
    State(waitCount, 0, map t | t in threads :: Outside)
  }

  predicate Enabled(s: State, t: Tid) {
    t in s.pc && s.pc[t] != Returned && (s.pc[t] == Lock || s.pc[t] == Relock ==> s.mutex == 0)
  }

  function Goto(s: State, t: Tid, p: Pc): State {
    s.(pc := s.pc[t := p])
  }

  function Woken(pc: map<Tid, Pc>): map<Tid, Pc> {
    map t | t in pc :: if pc[t] == Asleep then Relock else pc[t]
  }

  /** Thread t's next step.  For a sleeper it is to wake up unasked. */
  function Step(s: State, t: Tid): State
    requires Enabled(s, t)
  {
    match s.pc[t]
    case Outside => Goto(s, t, Lock)
    case Lock => Goto(s, t, DecRead).(mutex := t)
    case DecRead => Goto(s, t, DecWrite(s.waitCount))
    case DecWrite(seen) => Goto(s, t, TestZero).(waitCount := seen - 1)
    case TestZero => Goto(s, t, if s.waitCount == 0 then Broadcast else LoopTest)
    case Broadcast => s.(pc := Woken(s.pc)[t := Unlock])
    case LoopTest => Goto(s, t, if s.waitCount > 0 then Wait else Unlock)
    case Wait => Goto(s, t, Asleep).(mutex := 0)
    case Asleep => Goto(s, t, Relock)
    case Relock => Goto(s, t, LoopTest).(mutex := t)
    case Unlock => Goto(s, t, Returned).(mutex := 0)
    case Returned => s
  }

  // ---------- The invariant ----------

  /** The thread has the mutex. */
  predicate Inside(p: Pc) {
    match p
    case Outside | Lock | Asleep | Relock | Returned => false
    case _ => true
  }

  /** The thread has counted itself. */
  predicate Counted(p: Pc) {
    match p
    case Outside | Lock | DecRead | DecWrite(_) => false
    case _ => true
  }

  ghost function Arrived(s: State): set<Tid> {
    set t | t in s.pc && Counted(s.pc[t])
  }

  /** The thread that brought the count to zero has yet to broadcast. */
  predicate AboutToBroadcast(s: State) {
    s.waitCount == 0 && s.mutex in s.pc && s.mutex != 0 && (s.pc[s.mutex] == TestZero || s.pc[s.mutex] == Broadcast)
  }

  ghost predicate ThreadOk(s: State, t: Tid)
    requires t in s.pc
  {
    && (s.mutex == t <==> Inside(s.pc[t]))
    && (s.pc[t].DecWrite? ==> s.pc[t].seen == s.waitCount)
    && (s.pc[t] == Wait ==> s.waitCount > 0)
    && (s.pc[t] == Broadcast ==> s.waitCount == 0)
    && (s.pc[t] == Unlock || s.pc[t] == Returned ==> s.waitCount <= 0)
    && (s.pc[t] == Asleep ==> s.waitCount > 0 || AboutToBroadcast(s))
  }

  ghost predicate Inv(s: State, initial: int) {
    && (forall t :: t in s.pc ==> ThreadOk(s, t))
    && (s.mutex != 0 ==> s.mutex in s.pc)
    && s.waitCount == initial - |Arrived(s)|
  }

  lemma InitInv(waitCount: int, threads: set<Tid>)
    ensures Inv(Init(waitCount, threads), waitCount)
  {
    assert Arrived(Init(waitCount, threads)) == {};
  }

  /** Only the step that writes the count counts a thread, and that thread only. */
  lemma StepArrived(s: State, t: Tid)
    requires Enabled(s, t)
    ensures Arrived(Step(s, t)) == if s.pc[t].DecWrite? then Arrived(s) + {t} else Arrived(s)
  {
  }

  lemma StepThread(s: State, initial: int, t: Tid, u: Tid)
    requires Inv(s, initial) && Enabled(s, t) && u in s.pc
    ensures ThreadOk(Step(s, t), u)
  {
    assert ThreadOk(s, t) && ThreadOk(s, u);
  }

  lemma StepInv(s: State, initial: int, t: Tid)
    requires Inv(s, initial) && Enabled(s, t)
    ensures Inv(Step(s, t), initial) && Step(s, t).pc.Keys == s.pc.Keys
  {
    StepArrived(s, t);
    assert ThreadOk(s, t);
    forall u | u in s.pc ensures ThreadOk(Step(s, t), u) {
      StepThread(s, initial, t, u);
    }
  }

  // ---------- Runs ----------

  datatype Outcome = Reached(state: State) | Refused

  function Exec(s: State, turns: seq<Tid>): Outcome
    decreases |turns|
  {
    if turns == [] then Reached(s)
    else if !Enabled(s, turns[0]) then Refused
    else Exec(Step(s, turns[0]), turns[1..])
  }

  /** The invariant holds after any steps of any threads in any order. */
  lemma {:induction false} ExecInv(s: State, initial: int, turns: seq<Tid>)
    requires Inv(s, initial) && Exec(s, turns).Reached?
    ensures Inv(Exec(s, turns).state, initial) && Exec(s, turns).state.pc.Keys == s.pc.Keys
    decreases |turns|
  {
    if turns != [] {
      StepInv(s, initial, turns[0]);
      ExecInv(Step(s, turns[0]), initial, turns[1..]);
    }
  }

  function ExecFromStart(waitCount: int, threads: set<Tid>, turns: seq<Tid>): Outcome {
    Exec(Init(waitCount, threads), turns)
  }

  lemma ReachedInv(waitCount: int, threads: set<Tid>, turns: seq<Tid>)
    requires ExecFromStart(waitCount, threads, turns).Reached?
    ensures var s := ExecFromStart(waitCount, threads, turns).state; Inv(s, waitCount) && s.pc.Keys == threads
  {
    InitInv(waitCount, threads);
    ExecInv(Init(waitCount, threads), waitCount, turns);
  }

  /** No thread returns before waitcount threads have arrived, whoever wakes up unasked. */
  lemma NoEarlyReturn(waitCount: int, threads: set<Tid>, turns: seq<Tid>, t: Tid)
    requires ExecFromStart(waitCount, threads, turns).Reached?
    requires var s := ExecFromStart(waitCount, threads, turns).state; t in s.pc && s.pc[t] == Returned
    ensures |Arrived(ExecFromStart(waitCount, threads, turns).state)| >= waitCount
  {
    ReachedInv(waitCount, threads, turns);
    assert ThreadOk(ExecFromStart(waitCount, threads, turns).state, t);
  }

  /** Once they have, nobody is left asleep when the broadcast is done. */
  lemma NobodyForgotten(waitCount: int, threads: set<Tid>, turns: seq<Tid>, t: Tid)
    requires ExecFromStart(waitCount, threads, turns).Reached?
    requires var s := ExecFromStart(waitCount, threads, turns).state;
             t in s.pc && |Arrived(s)| >= waitCount && !AboutToBroadcast(s)
    ensures ExecFromStart(waitCount, threads, turns).state.pc[t] != Asleep
  {
    ReachedInv(waitCount, threads, turns);
    assert ThreadOk(ExecFromStart(waitCount, threads, turns).state, t);
  }

  // ---------- Everyone gets out ----------

  /** How far a thread is from having returned, once the count is used up; and before, from being asleep. */
  function Rank(p: Pc, late: bool): nat {
    match p
    case Outside => 10
    case Lock => 9
    case DecRead => 8
    case DecWrite(_) => 7
    case TestZero => 6
    case Wait => if late then 5 else 3
    case Asleep => if late then 4 else 2
    case Relock => if late then 3 else 5
    case LoopTest => if late then 2 else 4
    case Broadcast => 2
    case Unlock => 1
    case Returned => 0
  }

  ghost function Measure(pc: map<Tid, Pc>, late: bool): nat
    decreases |pc|
  {
    if pc == map[] then 0
    else
      var t :| t in pc;
      Rank(pc[t], late) + Measure(pc - {t}, late)
  }

  lemma {:induction false} MeasureWithout(pc: map<Tid, Pc>, t: Tid, late: bool)
    requires t in pc
    ensures Measure(pc, late) == Rank(pc[t], late) + Measure(pc - {t}, late)
    decreases |pc|
  {
    var u :| u in pc && Measure(pc, late) == Rank(pc[u], late) + Measure(pc - {u}, late);
    if u != t {
      MeasureWithout(pc - {u}, t, late);
      MeasureWithout(pc - {t}, u, late);
      assert pc - {u} - {t} == pc - {t} - {u};
    }
  }

  lemma {:induction false} MeasureMonotone(a: map<Tid, Pc>, b: map<Tid, Pc>, late: bool)
    requires a.Keys == b.Keys && forall t :: t in a ==> Rank(a[t], late) <= Rank(b[t], late)
    ensures Measure(a, late) <= Measure(b, late)
    decreases |a|
  {
    if a != map[] {
      var t :| t in a;
      MeasureWithout(a, t, late);
      MeasureWithout(b, t, late);
      MeasureMonotone(a - {t}, b - {t}, late);
    } else {
      assert b == map[];
    }
  }

  /** After the last arrival every step anyone can take, a sleeper's too, brings the end nearer. */
  lemma StepDecreases(s: State, initial: int, t: Tid)
    requires Inv(s, initial) && Enabled(s, t) && s.waitCount <= 0
    ensures Step(s, t).waitCount <= 0 && Measure(Step(s, t).pc, true) < Measure(s.pc, true)
  {
    assert ThreadOk(s, t);
    var r := Step(s, t);
    MeasureWithout(s.pc, t, true);
    MeasureWithout(r.pc, t, true);
    MeasureMonotone(r.pc - {t}, s.pc - {t}, true);
  }

  /** So a run cannot go on for longer than that measure. */
  lemma {:induction false} RunsEnd(s: State, initial: int, turns: seq<Tid>)
    requires Inv(s, initial) && s.waitCount <= 0 && Exec(s, turns).Reached?
    ensures |turns| + Measure(Exec(s, turns).state.pc, true) <= Measure(s.pc, true)
    decreases |turns|
  {
    if turns != [] {
      StepDecreases(s, initial, turns[0]);
      StepInv(s, initial, turns[0]);
      RunsEnd(Step(s, turns[0]), initial, turns[1..]);
    }
  }

  lemma {:induction false} MeasureBound(pc: map<Tid, Pc>, late: bool)
    ensures Measure(pc, late) <= 10 * |pc|
    decreases |pc|
  {
    if pc != map[] {
      var t :| t in pc;
      MeasureWithout(pc, t, late);
      MeasureBound(pc - {t}, late);
      assert pc.Keys == (pc - {t}).Keys + {t};
      assert |pc| == |pc - {t}| + 1;
    }
  }

  /** How many steps are left at most but for spurious wakeups, whatever the count. */
  ghost function StepsLeft(s: State): nat {
    if s.waitCount <= 0 then Measure(s.pc, true) else Measure(s.pc, false) + 10 * |s.pc| + 1
  }

  lemma EarlyRank(s: State, initial: int, t: Tid)
    requires Inv(s, initial) && Enabled(s, t) && s.waitCount > 0 && Step(s, t).waitCount > 0
    ensures var p := Step(s, t).pc[t]; var d := Rank(p, false) - Rank(s.pc[t], false);
            Step(s, t).pc == s.pc[t := p] && if s.pc[t] == Asleep then d == 3 else d < 0
  {
    assert ThreadOk(s, t);
  }

  lemma EarlyStep(s: State, initial: int, t: Tid)
    requires Inv(s, initial) && Enabled(s, t) && s.waitCount > 0 && Step(s, t).waitCount > 0
    ensures var d := Measure(Step(s, t).pc, false) - Measure(s.pc, false); if s.pc[t] == Asleep then d == 3 else d < 0
  {
    EarlyRank(s, initial, t);
    MeasureChanged(s.pc, t, Step(s, t).pc[t], false);
  }

  lemma MeasureChanged(pc: map<Tid, Pc>, t: Tid, p: Pc, late: bool)
    requires t in pc
    ensures Measure(pc[t := p], late) == Measure(pc, late) - Rank(pc[t], late) + Rank(p, late)
  {
    MeasureWithout(pc, t, late);
    MeasureWithout(pc[t := p], t, late);
    assert pc[t := p] - {t} == pc - {t};
  }

  /** From the start on, every step brings the end nearer, but for a sleeper that wakes up unasked, which costs three steps. */
  lemma EveryStepCounts(s: State, initial: int, t: Tid)
    requires Inv(s, initial) && Enabled(s, t)
    ensures StepsLeft(Step(s, t)) <= StepsLeft(s) + if s.pc[t] == Asleep then 3 else -1
  {
    var r := Step(s, t);
    StepInv(s, initial, t);
    if s.waitCount <= 0 {
      StepDecreases(s, initial, t);
    } else if r.waitCount > 0 {
      EarlyStep(s, initial, t);
      assert r.pc.Keys == s.pc.Keys;
      assert |r.pc| == |r.pc.Keys| == |s.pc|;
    } else {
      MeasureBound(r.pc, true);
      assert |r.pc| == |r.pc.Keys| == |s.pc|;
    }
  }

  /** How often a sleeper wakes up unasked. */
  function Wakeups(s: State, turns: seq<Tid>): nat
    decreases |turns|
  {
    if turns == [] || !Enabled(s, turns[0]) then 0
    else (if s.pc[turns[0]] == Asleep then 1 else 0) + Wakeups(Step(s, turns[0]), turns[1..])
  }

  /** So every run ends: it has no more steps than StepsLeft, and three more and its own for each spurious wakeup. */
  lemma {:induction false} AllRunsEnd(s: State, initial: int, turns: seq<Tid>)
    requires Inv(s, initial) && Exec(s, turns).Reached?
    ensures |turns| + StepsLeft(Exec(s, turns).state) <= StepsLeft(s) + 4 * Wakeups(s, turns)
    decreases |turns|
  {
    if turns != [] {
      EveryStepCounts(s, initial, turns[0]);
      StepInv(s, initial, turns[0]);
      AllRunsEnd(Step(s, turns[0]), initial, turns[1..]);
    }
  }

  /** And it only ends, but for sleepers and newcomers that stay where they are, with every arrived thread out. */
  lemma StuckIsOut(s: State, initial: int, t: Tid)
    requires Inv(s, initial) && s.waitCount <= 0
    requires forall u :: u in s.pc && s.pc[u] != Outside && s.pc[u] != Asleep ==> !Enabled(s, u)
    requires t in s.pc && s.pc[t] != Outside
    ensures s.pc[t] == Returned
  {
    assert ThreadOk(s, t);
    if s.mutex != 0 {
      assert ThreadOk(s, s.mutex);
      assert Enabled(s, s.mutex);
    }
  }

  /** Nobody can go on but by waking up unasked. */
  ghost predicate Stuck(s: State) {
    forall t :: t in s.pc ==> s.pc[t] == Asleep || !Enabled(s, t)
  }

  lemma StuckIsFree(s: State, initial: int, t: Tid)
    requires Inv(s, initial) && Stuck(s) && t in s.pc
    ensures s.mutex == 0 && (s.pc[t] == Asleep || s.pc[t] == Returned)
  {
    if s.mutex != 0 {
      assert ThreadOk(s, s.mutex);
      assert Enabled(s, s.mutex);
    }
  }

  lemma StuckArrived(s: State, initial: int)
    requires Inv(s, initial) && Stuck(s)
    ensures Arrived(s) == s.pc.Keys && s.waitCount == initial - |s.pc|
  {
    forall t | t in s.pc ensures t in Arrived(s) {
      StuckIsFree(s, initial, t);
    }
    assert Arrived(s) == s.pc.Keys;
  }

  /** No deadlock: where it ends, all have returned if there were enough threads, and otherwise all are asleep. */
  lemma DeadlockFree(s: State, initial: int, t: Tid)
    requires Inv(s, initial) && Stuck(s) && t in s.pc
    ensures s.pc[t] == if |s.pc| >= initial then Returned else Asleep
  {
    StuckArrived(s, initial);
    StuckIsFree(s, initial, t);
    assert ThreadOk(s, t);
  }

  lemma StartBound(waitCount: int, threads: set<Tid>)
    ensures StepsLeft(Init(waitCount, threads)) <= 20 * |threads| + 1
  {
    var s := Init(waitCount, threads);
    MeasureBound(s.pc, true);
    MeasureBound(s.pc, false);
    assert s.pc.Keys == threads;
    assert |s.pc| == |s.pc.Keys|;
  }

  /**
   The barrier as a whole.  Every run from the start is short, but for the wakeups nobody asked for; and
   when it can go on by these only, all have returned if there were enough threads, and all sleep otherwise.
   */
  lemma EveryoneReturns(waitCount: int, threads: set<Tid>, turns: seq<Tid>)
    requires ExecFromStart(waitCount, threads, turns).Reached?
    ensures |turns| <= 20 * |threads| + 1 + 4 * Wakeups(Init(waitCount, threads), turns)
    ensures var s := ExecFromStart(waitCount, threads, turns).state;
            Stuck(s) ==> forall t :: t in threads ==> t in s.pc && s.pc[t] == if |threads| >= waitCount then Returned else Asleep
  {
    InitInv(waitCount, threads);
    ReachedInv(waitCount, threads, turns);
    AllRunsEnd(Init(waitCount, threads), waitCount, turns);
    StartBound(waitCount, threads);
    var s := ExecFromStart(waitCount, threads, turns).state;
    if Stuck(s) {
      assert |s.pc| == |s.pc.Keys|;
      forall t | t in threads ensures s.pc[t] == if |threads| >= waitCount then Returned else Asleep {
        DeadlockFree(s, waitCount, t);
      }
    }
  }
}
