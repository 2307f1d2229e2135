/**
 The scheduler's properties over whole runs: sequences of any steps the code allows.
 */
module SchedulerRuns {
  import opened Basics
  import opened HeapSpec
  import opened HeapProperties
  import opened SchedulerSpec
  import opened SchedulerProperties

  /**
   Reached a state; Refused a step its context may not take; Failed the assertion of _sche_next, or wrote
   past the end of the timer heap's array.
   */
  datatype Outcome = Reached(state: State) | Refused | Failed

  ghost function Exec(cfg: Config, s: State, ops: seq<Op>): (r: Outcome)
    requires Inv(cfg, s)
    ensures r.Reached? ==> Inv(cfg, r.state)
    decreases |ops|
  {
    if ops == [] then Reached(s)
    else if !Enabled(s, ops[0]) then Refused
    else
      StepInv(cfg, s, ops[0]);
      var u := Step(cfg, s, ops[0]);
      if u.None? then Failed else Exec(cfg, u.value, ops[1..])
  }

  ghost function ExecFromStart(cfg: Config, now: int, ops: seq<Op>): (r: Outcome)
    ensures r.Reached? ==> Inv(cfg, r.state)
  {
    InitInv(cfg, now);
    Exec(cfg, Init(cfg, now), ops)
  }

  // ---------- One place ----------

  /**
   In every reachable state a spawned coroutine that is not destroyed is in exactly one of these
   places, once: running, active_list, the timer heap, dead and handed to the scheduler.  The only
   exception is one that went to sleep when the timer heap was full: it is nowhere.
   */
  lemma OnePlace(cfg: Config, now: int, ops: seq<Op>, c: Id)
    requires ExecFromStart(cfg, now, ops).Reached?
    requires c in ExecFromStart(cfg, now, ops).state.status && c != SELF
    ensures var s := ExecFromStart(cfg, now, ops).state;
            (if s.running == c then 1 else 0) + multiset(s.active)[c] + multiset(ItemsOf(s.timers))[c]
            + (if s.status[c] == Die && s.returned == Some(c) then 1 else 0)
            == if Lost(s, c) then 0 else 1
  {
    var s := ExecFromStart(cfg, now, ops).state;
    assert Placed(s, c);
    CountDistinct(s.active, c);
    var q := ItemsOf(s.timers);
    CountDistinct(q, c);
    assert c in q <==> c in Items(s.timers) by {
      if c in Items(s.timers) {
        var e :| e in s.timers && e.item == c;
        var i :| 0 <= i < |s.timers| && s.timers[i] == e;
        assert q[i] == c;
      }
      if c in q {
        var i :| 0 <= i < |q| && q[i] == c;
        assert s.timers[i] in s.timers;
      }
    }
  }

  // ---------- Sleepers that a full heap drops ----------

  lemma YieldLost(cfg: Config, s: State, now: int, c: Id)
    requires Inv(cfg, s) && s.running != SELF && YieldStep(cfg, s, now).Some?
    ensures Lost(YieldStep(cfg, s, now).value, c) <==> Lost(s, c)
  {
    var x := s.running;
    var u := s.(status := s.status[x := Yield]);
    YieldingInv(cfg, s);
    TickLost(cfg, u, x, now, c);
    TickBut(cfg, u, x, now);
    assert Placed(s, x);
    TickSame(cfg, u, now, x);
  }

  lemma LoopLost(cfg: Config, s: State, now: int, c: Id)
    requires Inv(cfg, s) && Enabled(s, Loop(now)) && LoopStep(cfg, s, now).Some?
    ensures Lost(LoopStep(cfg, s, now).value, c) <==> Lost(s, c)
  {
    TickLost(cfg, s, SELF, now, c);
    TickBut(cfg, s, SELF, now);
  }

  lemma SleepLost(cfg: Config, s: State, timeout: int, c: Id)
    requires Inv(cfg, s) && s.running != SELF && SleepStep(cfg, s, timeout).Some?
    ensures Lost(SleepStep(cfg, s, timeout).value, c) <==> Lost(s, c) || (c == s.running && |s.timers| == cfg.maxCoro)
  {
    InsertItems(s.timers, Entry(s.running, SleepKey(cfg, s, s.running, timeout)));
    assert Placed(s, s.running);
  }

  /** Going to sleep loses a coroutine exactly when the heap is full; nothing else loses or finds one. */
  lemma LostIff(cfg: Config, s: State, op: Op, c: Id)
    requires Inv(cfg, s) && Enabled(s, op) && Step(cfg, s, op).Some?
    ensures var t := Step(cfg, s, op).value;
            Lost(t, c) <==> Lost(s, c) || (op.DoSleep? && c == s.running && |s.timers| == cfg.maxCoro)
  {
    match op
    case Loop(now) => LoopLost(cfg, s, now, c);
    case DoYield(now) => YieldLost(cfg, s, now, c);
    case DoSleep(timeout) => SleepLost(cfg, s, timeout, c);
    case Finish => assert Placed(s, s.running);
    case _ =>
  }

  lemma YieldingInv(cfg: Config, s: State)
    requires Inv(cfg, s) && s.running != SELF
    ensures var u := s.(status := s.status[s.running := Yield]);
            InvBut(cfg, u, s.running) && s.running !in Items(s.timers) && s.running !in s.active
  {
    var x := s.running;
    var u := s.(status := s.status[x := Yield]);
    assert u.status.Keys == s.status.Keys;
    assert Placed(s, x);
    forall c | c in u.status && c != SELF && c != x ensures Placed(u, c) {
      assert Placed(s, c);
    }
  }

  lemma {:induction false} CheckTimeOutLost(cfg: Config, s: State, now: int, c: Id)
    requires Asleep(s)
    ensures Lost(CheckTimeOut(cfg, s, now), c) <==> Lost(s, c)
    decreases |s.timers|
  {
    if s.timers != [] && !Stops(cfg, s.timeouts, s.timers[0], now) {
      FirstAsleep(cfg, s);
      PopDistinct(s.timers, cfg.whole);
      CheckTimeOutLost(cfg, WakeFirst(cfg, s), now, c);
    }
  }

  lemma TickLost(cfg: Config, s: State, x: Id, now: int, c: Id)
    requires InvBut(cfg, s, x)
    ensures Lost(Tick(cfg, s, now), c) <==> Lost(s, c)
  {
    if s.ti >= 100 && now >= s.nextCheck {
      CheckTimeOutLost(cfg, s.(ti := 0), now, c);
    }
  }

  /** Whoever runs, fewer coroutines have timers than there are. */
  lemma RoomToSleep(cfg: Config, s: State)
    requires Inv(cfg, s) && s.running != SELF
    ensures |s.timers| < s.coroSize
  {
    DistinctIsCount(s.timers);
    assert Placed(s, s.running);
    var others := s.status.Keys - {SELF, s.running};
    assert Items(s.timers) <= others;
    CardinalityOfSubset(Items(s.timers), others);
    assert |s.status.Keys - {SELF}| == |s.status| - 1;
    assert others == s.status.Keys - {SELF} - {s.running};
  }

  /** Every spawn finds fewer than limit coroutines. */
  ghost predicate SpawnsWithin(cfg: Config, s: State, ops: seq<Op>, limit: int)
    requires Inv(cfg, s)
    decreases |ops|
  {
    ops == [] || !Enabled(s, ops[0]) ||
    ((ops[0].Spawn? ==> s.coroSize < limit) &&
     var u := Step(cfg, s, ops[0]);
     StepInv(cfg, s, ops[0]);
     u.Some? ==> SpawnsWithin(cfg, u.value, ops[1..], limit))
  }

  lemma StepSize(cfg: Config, s: State, op: Op)
    requires Inv(cfg, s) && Enabled(s, op) && Step(cfg, s, op).Some?
    ensures var t := Step(cfg, s, op).value;
            t.coroSize <= s.coroSize + (if op.Spawn? then 1 else 0)
  {
    match op
    case Loop(now) => TickKeeps(cfg, s, now);
    case DoYield(now) => TickKeeps(cfg, s.(status := s.status[s.running := Yield]), now);
    case _ =>
  }

  /** While no spawn goes over max_coro, no run ever loses a coroutine. */
  lemma {:induction false} NothingLost(cfg: Config, s: State, ops: seq<Op>, c: Id)
    requires Inv(cfg, s) && s.coroSize <= cfg.maxCoro && SpawnsWithin(cfg, s, ops, cfg.maxCoro)
    requires !Lost(s, c) && Exec(cfg, s, ops).Reached?
    ensures !Lost(Exec(cfg, s, ops).state, c)
    decreases |ops|
  {
    if ops != [] {
      StepInv(cfg, s, ops[0]);
      StepSize(cfg, s, ops[0]);
      LostIff(cfg, s, ops[0], c);
      if ops[0].DoSleep? { RoomToSleep(cfg, s); }
      NothingLost(cfg, Step(cfg, s, ops[0]).value, ops[1..], c);
    }
  }

  /** A full heap loses who goes to sleep; with max_coro 0 it is always full. */
  lemma LostCounterexample()
    ensures var r := ExecFromStart(AsWritten(0), 0, [Spawn(0), Loop(0), DoSleep(5)]);
            r.Reached? && Lost(r.state, 1)
  {
    ExecTwo(AsWritten(0), Init(AsWritten(0), 0), FirstSleeper(), DoSleep(5));
    LostAsleep(AsWritten(0), FirstSleeper());
  }

  lemma LostAsleep(cfg: Config, s: State)
    requires Inv(cfg, s) && cfg.maxCoro == 0 && s.running == 1 && s.timers == []
    ensures var r := Exec(cfg, s, [DoSleep(5)]); r.Reached? && Lost(r.state, 1)
  {
    StepInv(cfg, s, DoSleep(5));
    LostIff(cfg, s, DoSleep(5), 1);
    var t := Step(cfg, s, DoSleep(5)).value;
    assert [DoSleep(5)][1..] == [];
    assert Exec(cfg, s, [DoSleep(5)]) == Exec(cfg, t, []);
  }

  /** The only coroutine runs. */
  function FirstSleeper(): State {
    State(map[0 := Active, 1 := Active], [0], [], map[0 := 0, 1 := 0], map[0 := 0, 1 := 0], 1, 1, None, 1, false, 1, 200, 2)
  }

  lemma SleeperAwake(cfg: Config)
    requires cfg.selfYields
    ensures var s := Init(cfg, 0); var a := SpawnStep(s, 0);
            Known(s) && Known(a) && Leads(cfg, s, Spawn(0), a) && Leads(cfg, a, Loop(0), FirstSleeper())
  {
    var a := SpawnStep(Init(cfg, 0), 0);
    var u := Dispatch(a, SELF).value;
    assert u.status == FirstSleeper().status && u.active == FirstSleeper().active && u.words == FirstSleeper().words && u.timeouts == FirstSleeper().timeouts;
  }

  lemma ExecTwo(cfg: Config, s: State, u: State, op: Op)
    requires cfg.selfYields && s == Init(cfg, 0) && u == FirstSleeper()
    ensures Inv(cfg, s) && Inv(cfg, u) && Exec(cfg, s, [Spawn(0), Loop(0), op]) == Exec(cfg, u, [op])
  {
    InitInv(cfg, 0);
    SleeperAwake(cfg);
    var a := SpawnStep(s, 0);
    ExecFirst(cfg, s, [Spawn(0), Loop(0), op], a);
    assert [Spawn(0), Loop(0), op][1..] == [Loop(0), op];
    ExecFirst(cfg, a, [Loop(0), op], u);
    assert [Loop(0), op][1..] == [op];
  }

  // ---------- The end of the timer heap's array ----------

  ghost predicate OverflowTurn(cfg: Config, r: Outcome, op: Op) {
    r.Reached? && op.DoSleep? && Enabled(r.state, op) && Overflows(cfg, r.state.timers)
  }

  /** As written, the heap's array is too short exactly for the sleeper that would fill the heap; repaired, for none. */
  lemma OverflowsIff(cfg: Config, h: seq<Entry<Id>>)
    requires |h| <= cfg.maxCoro
    ensures Overflows(cfg, h) <==> !cfg.roomy && |h| + 1 == cfg.maxCoro
  {
    if |h| < cfg.maxCoro { InsertFitsIff(cfg.maxCoro, |h|); }
  }

  lemma StepInside(cfg: Config, s: State, op: Op)
    requires Inv(cfg, s) && Enabled(s, op) && (cfg.roomy || s.coroSize < cfg.maxCoro)
    ensures !(op.DoSleep? && Overflows(cfg, s.timers))
  {
    if op.DoSleep? {
      RoomToSleep(cfg, s);
      OverflowsIff(cfg, s.timers);
    }
  }

  /** As written, a run writes inside the array as long as no spawn makes it max_coro coroutines. */
  lemma {:induction false} StaysInside(cfg: Config, s: State, ops: seq<Op>)
    requires Inv(cfg, s) && (cfg.roomy || (s.coroSize < cfg.maxCoro && SpawnsWithin(cfg, s, ops, cfg.maxCoro - 1)))
    ensures forall n :: 0 <= n < |ops| ==> !OverflowTurn(cfg, Exec(cfg, s, ops[..n]), ops[n])
    decreases |ops|
  {
    if ops != [] {
      assert Exec(cfg, s, ops[..0]) == Reached(s);
      if Enabled(s, ops[0]) {
        StepInv(cfg, s, ops[0]);
        StepInside(cfg, s, ops[0]);
        if Step(cfg, s, ops[0]).Some? {
          StepSize(cfg, s, ops[0]);
          var u := Step(cfg, s, ops[0]).value;
          StaysInside(cfg, u, ops[1..]);
          forall n | 1 <= n < |ops| ensures !OverflowTurn(cfg, Exec(cfg, s, ops[..n]), ops[n]) {
            ExecAfterFirst(cfg, s, ops, n);
            assert !OverflowTurn(cfg, Exec(cfg, u, ops[1..][..n-1]), ops[1..][n-1]);
          }
        }
      }
    }
  }

  lemma ExecAfterFirst(cfg: Config, s: State, ops: seq<Op>, n: nat)
    requires Inv(cfg, s) && 1 <= n <= |ops| && Enabled(s, ops[0]) && Step(cfg, s, ops[0]).Some?
    ensures Inv(cfg, Step(cfg, s, ops[0]).value)
    ensures Exec(cfg, s, ops[..n]) == Exec(cfg, Step(cfg, s, ops[0]).value, ops[1..][..n-1])
  {
    StepInv(cfg, s, ops[0]);
    assert ops[..n][1..] == ops[1..][..n-1];
  }

  /** As written, with max_coro 1 the first sleep writes past the end of the array. */
  lemma OverflowCounterexample()
    ensures ExecFromStart(AsWritten(1), 0, [Spawn(0), Loop(0), DoSleep(5)]) == Failed
  {
    var cfg := AsWritten(1);
    var u := FirstSleeper();
    ExecTwo(cfg, Init(cfg, 0), u, DoSleep(5));
    OverflowsIff(cfg, u.timers);
    assert Step(cfg, u, DoSleep(5)).None?;
  }

  // ---------- The assertion in _sche_next ----------

  /** With the scheduler's own coroutine started in a status of its own, and the array long enough, no run fails. */
  lemma {:induction false} RepairedNeverFails(cfg: Config, s: State, ops: seq<Op>)
    requires Inv(cfg, s) && !cfg.selfYields && cfg.roomy
    ensures !Exec(cfg, s, ops).Failed?
    decreases |ops|
  {
    if ops != [] && Enabled(s, ops[0]) {
      StepInv(cfg, s, ops[0]);
      StepInside(cfg, s, ops[0]);
      RepairedNeverFails(cfg, Step(cfg, s, ops[0]).value, ops[1..]);
    }
  }

  /** The repaired scheduler: no run fails, and its timers are in the order of their timeouts wherever it gets. */
  lemma RepairedRuns(maxCoro: nat, now: int, ops: seq<Op>)
    ensures var r := ExecFromStart(Repaired(maxCoro), now, ops);
            !r.Failed? && (r.Reached? ==> Ordered(r.state.timers) && Keyed(r.state.timeouts, r.state.timers))
  {
    InitInv(Repaired(maxCoro), now);
    RepairedNeverFails(Repaired(maxCoro), Init(Repaired(maxCoro), now), ops);
  }

  ghost predicate OwnTurn(r: Outcome, op: Op) {
    r.Reached? && Enabled(r.state, op) && OwnFirst(r.state, op)
  }

  /** What goes wrong in a run, at its nth step. */
  ghost predicate FailsAt(cfg: Config, s: State, ops: seq<Op>, n: nat)
    requires Inv(cfg, s) && n < |ops|
  {
    OwnTurn(Exec(cfg, s, ops[..n]), ops[n]) || OverflowTurn(cfg, Exec(cfg, s, ops[..n]), ops[n])
  }

  lemma FailsAtFirst(cfg: Config, s: State, ops: seq<Op>)
    requires Inv(cfg, s) && ops != []
    ensures FailsAt(cfg, s, ops, 0) <==> Enabled(s, ops[0]) && Step(cfg, s, ops[0]).None?
  {
    assert Exec(cfg, s, ops[..0]) == Reached(s);
    if Enabled(s, ops[0]) { StepInv(cfg, s, ops[0]); }
  }

  /**
   A run fails exactly when it comes to a turn of the loop with the scheduler's own coroutine first in
   line, or to a sleep for which the array is too short.
   */
  lemma {:induction false} FailsIff(cfg: Config, s: State, ops: seq<Op>)
    requires Inv(cfg, s)
    ensures Exec(cfg, s, ops).Failed? <==> exists n :: 0 <= n < |ops| && FailsAt(cfg, s, ops, n)
    decreases |ops|
  {
    if ops != [] {
      FailsAtFirst(cfg, s, ops);
      if Enabled(s, ops[0]) && Step(cfg, s, ops[0]).Some? {
        StepInv(cfg, s, ops[0]);
        var u := Step(cfg, s, ops[0]).value;
        FailsIff(cfg, u, ops[1..]);
        forall n | 1 <= n < |ops| ensures FailsAt(cfg, s, ops, n) <==> FailsAt(cfg, u, ops[1..], n-1) {
          ExecAfterFirst(cfg, s, ops, n);
        }
        if n :| 0 <= n < |ops[1..]| && FailsAt(cfg, u, ops[1..], n) {
          assert FailsAt(cfg, s, ops, n+1);
        }
      } else {
        forall n | 1 <= n < |ops| ensures !FailsAt(cfg, s, ops, n) {
          assert !Exec(cfg, s, ops[..n]).Reached?;
        }
      }
    }
  }

  // ---------- When the scheduler's own coroutine is out of line ----------

  /** It is neither in line nor about to be. */
  ghost predicate OwnOut(s: State) {
    SELF in s.status && SELF !in s.active && s.status[SELF] != Yield
  }

  lemma OwnOutLoop(cfg: Config, s: State, now: int)
    requires Inv(cfg, s) && Enabled(s, Loop(now)) && OwnOut(s) && LoopStep(cfg, s, now).Some?
    ensures OwnOut(LoopStep(cfg, s, now).value)
  {
    TickKeeps(cfg, s, now);
    TickBut(cfg, s, SELF, now);
    TickSame(cfg, s, now, SELF);
  }

  lemma OwnOutYield(cfg: Config, s: State, now: int)
    requires Inv(cfg, s) && s.running != SELF && OwnOut(s) && YieldStep(cfg, s, now).Some?
    ensures OwnOut(YieldStep(cfg, s, now).value)
  {
    var x, u := s.running, s.(status := s.status[s.running := Yield]);
    YieldingInv(cfg, s);
    TickKeeps(cfg, u, now);
    TickBut(cfg, u, x, now);
    TickSame(cfg, u, now, SELF);
  }

  /** Once it is out of line it stays out, and the assertion holds. */
  lemma OwnOutStep(cfg: Config, s: State, op: Op)
    requires Inv(cfg, s) && Enabled(s, op) && OwnOut(s)
    ensures !OwnFirst(s, op)
    ensures Step(cfg, s, op).Some? ==> OwnOut(Step(cfg, s, op).value)
  {
    match op
    case Loop(now) => if Step(cfg, s, op).Some? { OwnOutLoop(cfg, s, now); }
    case DoYield(now) => if Step(cfg, s, op).Some? { OwnOutYield(cfg, s, now); }
    case _ =>
  }

  /** So from then on no run fails, repaired or as written, but for the array. */
  lemma {:induction false} OwnOutNeverFails(cfg: Config, s: State, ops: seq<Op>)
    requires Inv(cfg, s) && OwnOut(s)
    ensures forall n :: 0 <= n < |ops| ==> !OwnTurn(Exec(cfg, s, ops[..n]), ops[n])
    decreases |ops|
  {
    if ops != [] {
      assert Exec(cfg, s, ops[..0]) == Reached(s);
      if Enabled(s, ops[0]) {
        StepInv(cfg, s, ops[0]);
        OwnOutStep(cfg, s, ops[0]);
        if Step(cfg, s, ops[0]).Some? {
          var u := Step(cfg, s, ops[0]).value;
          OwnOutNeverFails(cfg, u, ops[1..]);
          forall n | 1 <= n < |ops| ensures !OwnTurn(Exec(cfg, s, ops[..n]), ops[n]) {
            ExecAfterFirst(cfg, s, ops, n);
            assert !OwnTurn(Exec(cfg, u, ops[1..][..n-1]), ops[1..][n-1]);
          }
        }
      }
    }
  }

  /** The scheduler runs, and is first in line: its next turn fails. */
  ghost predicate Doomed(s: State) {
    s.running == SELF && s.active != [] && s.active[0] == SELF
  }

  lemma DispatchNotDoomed(s: State, co: Id)
    requires Known(s) && co in s.status && NoRepeats(s.active) && Dispatch(s, co).Some?
    requires co != SELF || s.active != []
    ensures !Doomed(Dispatch(s, co).value)
  {
  }

  lemma YieldNotDoomed(cfg: Config, s: State, now: int)
    requires Inv(cfg, s) && s.running != SELF && YieldStep(cfg, s, now).Some?
    ensures !Doomed(YieldStep(cfg, s, now).value)
  {
    var x, u := s.running, s.(status := s.status[s.running := Yield]);
    YieldingInv(cfg, s);
    TickKeeps(cfg, u, now);
    TickBut(cfg, u, x, now);
    DispatchNotDoomed(Tick(cfg, u, now), x);
  }

  lemma LoopNotDoomed(cfg: Config, s: State, now: int)
    requires Inv(cfg, s) && Enabled(s, Loop(now)) && LoopStep(cfg, s, now).Some?
    ensures !Doomed(LoopStep(cfg, s, now).value)
  {
    TickKeeps(cfg, s, now);
    TickBut(cfg, s, SELF, now);
    if Tick(cfg, s, now).active != [] { DispatchNotDoomed(Tick(cfg, s, now), SELF); }
  }

  /** That comes about in one way: a coroutine returns while the scheduler's own is first in line.  Spawning and collecting leave it so. */
  lemma DoomedStep(cfg: Config, s: State, op: Op)
    requires Inv(cfg, s) && Enabled(s, op) && Step(cfg, s, op).Some?
    ensures Doomed(Step(cfg, s, op).value) <==>
            (op.Finish? && s.active != [] && s.active[0] == SELF) || ((op.Spawn? || op.Collect?) && Doomed(s))
  {
    match op
    case Loop(now) => LoopNotDoomed(cfg, s, now);
    case DoYield(now) => YieldNotDoomed(cfg, s, now);
    case DoSleep(timeout) => DispatchNotDoomed(Slept(cfg, s, timeout), s.running);
    case _ =>
  }

  /** A coroutine returns while the scheduler's own is first in line. */
  ghost predicate FinishesFirst(r: Outcome, op: Op) {
    r.Reached? && op.Finish? && Enabled(r.state, op) && r.state.active != [] && r.state.active[0] == SELF
  }

  /** So a run in which the assertion fails is one in which that happened. */
  lemma {:induction false} FailureIsFromFinish(cfg: Config, s: State, ops: seq<Op>, n: nat)
    requires Inv(cfg, s) && !Doomed(s) && n < |ops| && OwnTurn(Exec(cfg, s, ops[..n]), ops[n])
    ensures exists k :: 0 <= k < n && FinishesFirst(Exec(cfg, s, ops[..k]), ops[k])
    decreases |ops|
  {
    assert Exec(cfg, s, ops[..0]) == Reached(s);
    assert n > 0 && Enabled(s, ops[0]) && Step(cfg, s, ops[0]).Some?;
    StepInv(cfg, s, ops[0]);
    DoomedStep(cfg, s, ops[0]);
    var u := Step(cfg, s, ops[0]).value;
    if Doomed(u) {
      assert FinishesFirst(Exec(cfg, s, ops[..0]), ops[0]);
    } else {
      ExecAfterFirst(cfg, s, ops, n);
      FailureIsFromFinish(cfg, u, ops[1..], n-1);
      var k :| 0 <= k < n-1 && FinishesFirst(Exec(cfg, u, ops[1..][..k]), ops[1..][k]);
      ExecAfterFirst(cfg, s, ops, k+1);
      assert FinishesFirst(Exec(cfg, s, ops[..k+1]), ops[k+1]);
    }
  }

  // ---------- current_coro ----------

  /** The step ends in a switch by _sche_next. */
  ghost predicate Switches(cfg: Config, s: State, op: Op)
    requires Known(s)
  {
    op.DoYield? || op.DoSleep? || (op.Loop? && Tick(cfg, s, op.now).active != [])
  }

  /** The step destroys the coroutine that current_coro refers to. */
  ghost predicate CollectsCurrent(s: State, op: Op) {
    op.Collect? && s.returned == Some(s.current) && s.current in s.status && s.status[s.current] == Die
  }

  /**
   current_coro refers to a destroyed coroutine exactly from when the one that it refers to is collected
   until the next switch, which makes it who runs.
   */
  lemma CurrentStep(cfg: Config, s: State, op: Op)
    requires Inv(cfg, s) && Enabled(s, op) && Step(cfg, s, op).Some?
    ensures var t := Step(cfg, s, op).value;
            if Switches(cfg, s, op) then t.current == t.running && t.current in t.status
            else t.current !in t.status <==> s.current !in s.status || CollectsCurrent(s, op)
  {
    match op
    case Loop(now) => TickKeeps(cfg, s, now);
    case DoYield(now) => TickKeeps(cfg, s.(status := s.status[s.running := Yield]), now);
    case Collect => assert Placed(s, s.returned.value);
    case _ =>
  }

  /** A run as written: two coroutines, the first yields, the second returns. */
  function FatalOps(): seq<Op> {
    [Spawn(0), Spawn(0), Loop(0), DoYield(0), Finish, Collect]
  }

  function FatalState(i: nat): State
    requires i <= 6
  {
    match i
    case 0 => State(map[0 := Yield], [], [], map[0 := 0], map[0 := 0], 0, 0, None, 0, false, 0, 200, 1)
    case 1 => State(map[0 := Yield, 1 := Active], [1], [], map[0 := 0, 1 := 0], map[0 := 0, 1 := 0], 0, 0, None, 1, false, 0, 200, 2)
    case 2 => State(map[0 := Yield, 1 := Active, 2 := Active], [1, 2], [], map[0 := 0, 1 := 0, 2 := 0], map[0 := 0, 1 := 0, 2 := 0], 0, 0, None, 2, false, 0, 200, 3)
    case 3 => State(map[0 := Active, 1 := Active, 2 := Active], [2, 0], [], map[0 := 0, 1 := 0, 2 := 0], map[0 := 0, 1 := 0, 2 := 0], 1, 1, None, 2, false, 1, 200, 3)
    case 4 => State(map[0 := Active, 1 := Active, 2 := Active], [0, 1], [], map[0 := 0, 1 := 0, 2 := 0], map[0 := 0, 1 := 0, 2 := 0], 2, 2, None, 2, false, 2, 200, 3)
    case 5 => State(map[0 := Active, 1 := Active, 2 := Die], [0, 1], [], map[0 := 0, 1 := 0, 2 := 0], map[0 := 0, 1 := 0, 2 := 0], 0, 2, Some(2), 2, false, 2, 200, 3)
    case _ => State(map[0 := Active, 1 := Active], [0, 1], [], map[0 := 0, 1 := 0, 2 := 0], map[0 := 0, 1 := 0, 2 := 0], 0, 2, None, 1, false, 2, 200, 3)
  }

  ghost predicate FatalGoesOn(i: nat)
    requires i < 6
  {
    Leads(AsWritten(100), FatalState(i), FatalOps()[i], FatalState(i+1))
  }

  lemma FatalSpawns()
    ensures FatalGoesOn(0) && FatalGoesOn(1)
  {
    var t, u := SpawnStep(FatalState(0), 0), SpawnStep(FatalState(1), 0);
    assert t.status == FatalState(1).status && t.active == FatalState(1).active && t.words == FatalState(1).words && t.timeouts == FatalState(1).timeouts;
    assert u.status == FatalState(2).status && u.active == FatalState(2).active && u.words == FatalState(2).words && u.timeouts == FatalState(2).timeouts;
  }

  lemma FatalDispatch()
    ensures FatalGoesOn(2)
  {
    var t := Dispatch(FatalState(2), SELF).value;
    assert t.status == FatalState(3).status && t.active == FatalState(3).active;
  }

  lemma FatalYield()
    ensures FatalGoesOn(3)
  {
    var u := FatalState(3).(status := FatalState(3).status[1 := Yield]);
    assert YieldStep(AsWritten(100), FatalState(3), 0) == Dispatch(u, 1);
    var t := Dispatch(u, 1).value;
    assert t.status == FatalState(4).status && t.active == FatalState(4).active;
  }

  lemma FatalEnd()
    ensures FatalGoesOn(4) && FatalGoesOn(5)
  {
    assert DieStep(FatalState(4)).status == FatalState(5).status;
    assert CollectStep(FatalState(5)).status == FatalState(6).status;
  }

  ghost predicate Leads(cfg: Config, s: State, op: Op, t: State) {
    Known(s) && Enabled(s, op) && Step(cfg, s, op) == Some(t)
  }

  lemma ExecFirst(cfg: Config, s: State, ops: seq<Op>, t: State)
    requires Inv(cfg, s) && ops != [] && Leads(cfg, s, ops[0], t)
    ensures Inv(cfg, t) && Exec(cfg, s, ops) == Exec(cfg, t, ops[1..])
  {
    StepInv(cfg, s, ops[0]);
  }

  lemma {:induction false} ExecChain(cfg: Config, states: seq<State>, ops: seq<Op>)
    requires |states| == |ops| + 1 && Inv(cfg, states[0])
    requires forall i :: 0 <= i < |ops| ==> Leads(cfg, states[i], ops[i], states[i+1])
    ensures Exec(cfg, states[0], ops) == Reached(states[|ops|])
    decreases |ops|
  {
    if ops != [] {
      var rest, left := states[1..], ops[1..];
      ExecFirst(cfg, states[0], ops, states[1]);
      forall i | 0 <= i < |left| ensures Leads(cfg, rest[i], left[i], rest[i+1]) {
        assert Leads(cfg, states[i+1], ops[i+1], states[i+2]);
      }
      ExecChain(cfg, rest, left);
    }
  }

  lemma FatalRun()
    ensures Inv(AsWritten(100), FatalState(0)) && ExecFromStart(AsWritten(100), 0, FatalOps()) == Reached(FatalState(6))
    ensures Init(AsWritten(100), 0) == FatalState(0)
  {
    var cfg := AsWritten(100);
    InitInv(cfg, 0);
    assert Init(cfg, 0) == FatalState(0);
    FatalSpawns(); FatalDispatch(); FatalYield(); FatalEnd();
    var states := seq(7, i requires 0 <= i < 7 => FatalState(i));
    forall i | 0 <= i < 6 ensures FatalGoesOn(i) {
    }
    ExecChain(cfg, states, FatalOps());
  }

  /** After that run current_coro is the coroutine 2, which is destroyed. */
  lemma CurrentDangles()
    ensures var r := ExecFromStart(AsWritten(100), 0, FatalOps()); r.Reached? && r.state.current !in r.state.status
  {
    FatalRun();
    FatalCurrent(FatalState(6));
  }

  lemma FatalCurrent(s: State)
    requires s == FatalState(6)
    ensures s.current !in s.status
  {
  }

  lemma FailsNext(cfg: Config, s: State, ops: seq<Op>, op: Op, t: State)
    requires Inv(cfg, s) && Exec(cfg, s, ops) == Reached(t) && Enabled(t, op) && OwnFirst(t, op)
    ensures Exec(cfg, s, ops + [op]) == Failed
  {
    assert (ops + [op])[..|ops|] == ops;
    assert FailsAt(cfg, s, ops + [op], |ops|);
    FailsIff(cfg, s, ops + [op]);
  }

  lemma FatalOwnFirst(s: State)
    requires s == FatalState(6)
    ensures Enabled(s, Loop(0)) && OwnFirst(s, Loop(0))
  {
  }

  /** As written, the next turn of the loop then fails the assertion. */
  lemma AsWrittenFails()
    ensures ExecFromStart(AsWritten(100), 0, FatalOps() + [Loop(0)]) == Failed
  {
    FatalRun();
    FatalOwnFirst(FatalState(6));
    FailsNext(AsWritten(100), FatalState(0), FatalOps(), Loop(0), FatalState(6));
  }

  // ---------- Stopping ----------

  /** stop says that coroutines were spawned and the last has been destroyed. */
  ghost predicate StopExact(s: State) {
    s.stop <==> s.nextId > 1 && s.coroSize == 0
  }

  /** That is kept by every step but a spawn after the scheduler stopped. */
  lemma StopStep(cfg: Config, s: State, op: Op)
    requires Inv(cfg, s) && Enabled(s, op) && Step(cfg, s, op).Some? && StopExact(s)
    ensures StopExact(Step(cfg, s, op).value) <==> !(op.Spawn? && s.stop)
  {
    AnyoneSpawned(cfg, s);
    match op
    case Loop(now) => TickKeeps(cfg, s, now);
    case DoYield(now) => TickKeeps(cfg, s.(status := s.status[s.running := Yield]), now);
    case _ =>
  }

  lemma AnyoneSpawned(cfg: Config, s: State)
    requires Inv(cfg, s)
    ensures s.coroSize >= 0 && (s.running != SELF || s.returned.Some? ==> s.nextId > 1)
    ensures s.returned.Some? ==> s.coroSize >= 1
  {
    assert s.status.Keys == {SELF} + (s.status.Keys - {SELF});
    if s.returned.Some? {
      assert {s.returned.value} <= s.status.Keys - {SELF};
      CardinalityOfSubset({s.returned.value}, s.status.Keys - {SELF});
    }
  }

  ghost predicate SpawnsBeforeStop(cfg: Config, s: State, ops: seq<Op>)
    requires Inv(cfg, s)
    decreases |ops|
  {
    ops == [] || !Enabled(s, ops[0]) ||
    ((ops[0].Spawn? ==> !s.stop) &&
     var u := Step(cfg, s, ops[0]);
     StepInv(cfg, s, ops[0]);
     u.Some? ==> SpawnsBeforeStop(cfg, u.value, ops[1..]))
  }

  /** So in a run that spawns nothing after it stopped, stop is set exactly while all that were spawned are destroyed. */
  lemma {:induction false} StopsWithTheLast(cfg: Config, s: State, ops: seq<Op>)
    requires Inv(cfg, s) && StopExact(s) && SpawnsBeforeStop(cfg, s, ops) && Exec(cfg, s, ops).Reached?
    ensures StopExact(Exec(cfg, s, ops).state)
    decreases |ops|
  {
    if ops != [] {
      StepInv(cfg, s, ops[0]);
      StopStep(cfg, s, ops[0]);
      StopsWithTheLast(cfg, Step(cfg, s, ops[0]).value, ops[1..]);
    }
  }

  // ---------- Bounded bypass ----------

  /** active_list as the dispatch of this step finds it; nothing for a step that does not dispatch. */
  ghost function Queue(cfg: Config, s: State, op: Op): seq<Id>
    requires Known(s)
  {
    match op
    case Loop(now) => Tick(cfg, s, now).active
    case DoYield(now) => Tick(cfg, s.(status := s.status[s.running := Yield]), now).active
    case DoSleep(_) => s.active
    case _ => []
  }

  lemma DispatchQueue(s: State, co: Id)
    requires Known(s) && co in s.status && Dispatch(s, co).Some?
    ensures var t := Dispatch(s, co).value;
            if s.active == [] then s.active <= t.active else s.active[1..] <= t.active && t.running == s.active[0]
  {
  }

  /** A step takes at most the head of active_list, runs it, and adds only at the back. */
  lemma QueueStep(cfg: Config, s: State, op: Op)
    requires Inv(cfg, s) && Enabled(s, op) && Step(cfg, s, op).Some?
    ensures var t := Step(cfg, s, op).value; var q := Queue(cfg, s, op);
            if q == [] then s.active <= t.active
            else s.active <= q && q[1..] <= t.active && t.running == q[0]
  {
    match op
    case Loop(now) =>
      TickKeeps(cfg, s, now);
      var u := Tick(cfg, s, now);
      if u.active != [] { DispatchQueue(u, SELF); }
    case DoYield(now) =>
      var u := s.(status := s.status[s.running := Yield]);
      TickKeeps(cfg, u, now);
      DispatchQueue(Tick(cfg, u, now), s.running);
    case DoSleep(timeout) =>
      InsertItems(s.timers, Entry(s.running, SleepKey(cfg, s, s.running, timeout)));
      DispatchQueue(Slept(cfg, s, timeout), s.running);
    case _ =>
  }

  /** How many coroutines a run takes off active_list. */
  ghost function Dispatches(cfg: Config, s: State, ops: seq<Op>): nat
    requires Inv(cfg, s)
    decreases |ops|
  {
    if ops == [] || !Enabled(s, ops[0]) || Step(cfg, s, ops[0]).None? then 0
    else
      StepInv(cfg, s, ops[0]);
      (if Queue(cfg, s, ops[0]) == [] then 0 else 1) + Dispatches(cfg, Step(cfg, s, ops[0]).value, ops[1..])
  }

  /** One dispatch moves everyone in line up by one place; other steps leave them. */
  lemma MovesUpStep(cfg: Config, s: State, op: Op, k: nat)
    requires Inv(cfg, s) && Enabled(s, op) && Step(cfg, s, op).Some? && k < |s.active|
    requires Queue(cfg, s, op) != [] ==> k > 0
    ensures var t := Step(cfg, s, op).value; var p := if Queue(cfg, s, op) == [] then k else k-1;
            p < |t.active| && t.active[p] == s.active[k]
  {
    QueueStep(cfg, s, op);
  }

  /** c is at place p of active_list. */
  ghost predicate Stands(s: State, p: int, c: Id) {
    0 <= p < |s.active| && s.active[p] == c
  }

  lemma FirstMove(cfg: Config, s: State, ops: seq<Op>, k: nat, c: Id, d: nat, t: State) returns (u: State, p: nat)
    requires Inv(cfg, s) && ops != [] && Stands(s, k, c) && Exec(cfg, s, ops) == Reached(t)
    requires k == d + Dispatches(cfg, s, ops)
    ensures Inv(cfg, u) && Exec(cfg, u, ops[1..]) == Reached(t) && Stands(u, p, c)
    ensures p == d + Dispatches(cfg, u, ops[1..])
  {
    StepInv(cfg, s, ops[0]);
    MovesUpStep(cfg, s, ops[0], k);
    u := Step(cfg, s, ops[0]).value;
    p := if Queue(cfg, s, ops[0]) == [] then k else k-1;
  }

  lemma NoMove(cfg: Config, s: State, k: nat, c: Id, d: nat, t: State)
    requires Inv(cfg, s) && Exec(cfg, s, []) == Reached(t) && k == d + Dispatches(cfg, s, []) && Stands(s, k, c)
    ensures Stands(t, d, c)
  {
  }

  /** After as many dispatches as k is more than d, whatever else happened, the coroutine c at place k of active_list is at place d. */
  lemma {:induction false} MovesUp(cfg: Config, s: State, ops: seq<Op>, k: nat, c: Id, d: nat, t: State)
    requires Inv(cfg, s) && Stands(s, k, c) && Exec(cfg, s, ops) == Reached(t)
    requires k == d + Dispatches(cfg, s, ops)
    ensures Stands(t, d, c)
    decreases |ops|
  {
    if ops == [] {
      NoMove(cfg, s, k, c, d, t);
    } else {
      var u, p := FirstMove(cfg, s, ops, k, c, d, t);
      MovesUp(cfg, u, ops[1..], p, c, d, t);
    }
  }

  lemma HeadRuns(cfg: Config, s: State, op: Op)
    requires Inv(cfg, s) && Enabled(s, op) && Step(cfg, s, op).Some? && Queue(cfg, s, op) != [] && s.active != []
    ensures Step(cfg, s, op).value.running == s.active[0]
  {
    QueueStep(cfg, s, op);
  }

  /** So exactly k others are dispatched before it: the next dispatch resumes it. */
  lemma BoundedBypass(cfg: Config, s: State, ops: seq<Op>, op: Op, k: nat, t: State)
    requires Inv(cfg, s) && k < |s.active| && Exec(cfg, s, ops) == Reached(t)
    requires Dispatches(cfg, s, ops) == k
    requires Enabled(t, op) && Queue(cfg, t, op) != [] && Step(cfg, t, op).Some?
    ensures Step(cfg, t, op).value.running == s.active[k]
  {
    MovesUp(cfg, s, ops, k, s.active[k], 0, t);
    HeadRuns(cfg, t, op);
  }

  // ---------- Waking ----------

  /**
   Repaired, check_time_out moves exactly the sleepers due to the back of active_list, earliest
   first, and leaves the others in a heap in order.
   */
  lemma RepairedWakesDue(cfg: Config, s: State, now: int)
    requires Inv(cfg, s) && cfg.wakeDue && cfg.whole && cfg.byTimeout
    ensures var r := CheckTimeOut(cfg, s, now); var tm := s.timeouts; var woken := Popped(cfg, tm, s.timers, now);
            && r.active == s.active + ItemsOf(woken)
            && Chronological(tm, woken) && Ordered(r.timers)
            && multiset(s.timers) == multiset(woken) + multiset(r.timers)
            && (forall e :: e in multiset(woken) ==> At(tm, e.item) <= now)
            && (forall e :: e in multiset(r.timers) ==> At(tm, e.item) > now)
  {
    CheckTimeOutMoves(cfg, s, now);
    RepairedPopsDue(cfg, s.timeouts, s.timers, now);
    PoppedAndLeft(cfg, s.timeouts, s.timers, now);
    LeftOrdered(cfg, s.timeouts, s.timers, now);
    PoppedChronological(cfg, s.timeouts, s.timers, now);
  }

  lemma PoppedChronological(cfg: Config, tm: map<Id, int>, h: seq<Entry<Id>>, now: int)
    requires Keyed(tm, h) && Sorted(Popped(cfg, tm, h, now))
    ensures Chronological(tm, Popped(cfg, tm, h, now))
  {
    var p := Popped(cfg, tm, h, now);
    PoppedAndLeft(cfg, tm, h, now);
    forall i | 0 <= i < |p| ensures p[i].key == At(tm, p[i].item) {
      assert p[i] in multiset(p);
      InMultiset(p[i], h, multiset(p), multiset(Left(cfg, tm, h, now)));
    }
  }
}
