/**
 When the scheduler looks at its timers, and that every sleeper is woken: over whole runs, by what can be
 seen of them, whatever happens in between.
 */
module SchedulerTime {
  import opened Basics
  import opened HeapSpec
  import opened HeapProperties
  import opened SchedulerSpec
  import opened SchedulerProperties
  import opened SchedulerRuns

  // ---------- The clock ----------

  /** The steps in which ti is looked at, and the clock read. */
  predicate Reads(op: Op) { op.Loop? || op.DoYield? }

  /** The step looks at the timers: after 100 switches, and not before nextCheck. */
  predicate Looks(s: State, op: Op) {
    Reads(op) && s.ti >= 100 && op.now >= s.nextCheck
  }

  /** What a step that leads to t counts for: a switch 1, and a turn of the loop with nobody in line 50. */
  function Weight(op: Op, t: State): nat {
    match op
    case Loop(_) => if t.running == SELF then 50 else 1
    case DoYield(_) | DoSleep(_) => 1
    case _ => 0
  }

  lemma {:induction false} CheckTimeOutClock(cfg: Config, s: State, now: int)
    requires Known(s)
    ensures CheckTimeOut(cfg, s, now).nextCheck == now + 200
    decreases |s.timers|
  {
    if s.timers != [] && !StopsAt(cfg, At(s.timeouts, s.timers[0].item), now) {
      PopItems(s.timers, cfg.whole);
      CheckTimeOutClock(cfg, Wake(s, s.timers[0].item).(timers := Pop(s.timers, cfg.whole)), now);
    }
  }

  lemma TickClock(cfg: Config, s: State, now: int)
    requires Known(s)
    ensures var r := Tick(cfg, s, now); var look := s.ti >= 100 && now >= s.nextCheck;
            r.nextCheck == (if look then now + 200 else s.nextCheck) && r.ti == if s.ti >= 100 then 0 else s.ti
  {
    if s.ti >= 100 && now >= s.nextCheck {
      CheckTimeOutClock(cfg, s.(ti := 0), now);
      CheckTimeOutKeeps(cfg, s.(ti := 0), now);
    }
  }

  lemma DispatchClock(s: State, co: Id)
    requires Known(s) && co in s.status && Dispatch(s, co).Some?
    ensures var t := Dispatch(s, co).value; t.ti == s.ti + 1 && t.nextCheck == s.nextCheck
    ensures co == SELF && s.active != [] ==> Dispatch(s, co).value.running != SELF
  {
  }

  lemma LoopClock(cfg: Config, s: State, now: int)
    requires Inv(cfg, s) && Enabled(s, Loop(now)) && LoopStep(cfg, s, now).Some?
    ensures var t := LoopStep(cfg, s, now).value;
            && t.nextCheck == (if Looks(s, Loop(now)) then now + 200 else s.nextCheck)
            && t.ti == (if s.ti >= 100 then 0 else s.ti) + if t.running == SELF then 50 else 1
  {
    TickClock(cfg, s, now);
    TickKeeps(cfg, s, now);
    var t := Tick(cfg, s, now);
    if t.active != [] { DispatchClock(t, SELF); }
  }

  lemma YieldClock(cfg: Config, s: State, now: int)
    requires Inv(cfg, s) && s.running != SELF && YieldStep(cfg, s, now).Some?
    ensures var t := YieldStep(cfg, s, now).value;
            && t.nextCheck == (if Looks(s, DoYield(now)) then now + 200 else s.nextCheck)
            && t.ti == (if s.ti >= 100 then 0 else s.ti) + 1
  {
    var u := s.(status := s.status[s.running := Yield]);
    TickClock(cfg, u, now);
    TickKeeps(cfg, u, now);
    DispatchClock(Tick(cfg, u, now), s.running);
  }

  /** Each step's part in the clock, in any version. */
  lemma ClockStep(cfg: Config, s: State, op: Op)
    requires Inv(cfg, s) && Enabled(s, op) && Step(cfg, s, op).Some?
    ensures var t := Step(cfg, s, op).value;
            && t.nextCheck == (if Looks(s, op) then op.now + 200 else s.nextCheck)
            && t.ti == (if Reads(op) && s.ti >= 100 then 0 else s.ti) + Weight(op, t)
  {
    match op
    case Loop(now) => LoopClock(cfg, s, now);
    case DoYield(now) => YieldClock(cfg, s, now);
    case _ =>
  }

  // ---------- Timeouts ----------

  /** A coroutine's timeout is what it last asked for, and its word what it was spawned with. */
  lemma StepTimeouts(cfg: Config, s: State, op: Op, c: Id)
    requires Inv(cfg, s) && Enabled(s, op) && Step(cfg, s, op).Some? && c in s.status
    ensures var t := Step(cfg, s, op).value;
            && At(t.timeouts, c) == (if op.DoSleep? && c == s.running then op.timeout else At(s.timeouts, c))
            && At(t.words, c) == At(s.words, c)
            && (op.Spawn? ==> At(t.words, s.nextId) == op.word)
  {
    match op
    case Loop(now) => TickKeeps(cfg, s, now);
    case DoYield(now) => TickKeeps(cfg, s.(status := s.status[s.running := Yield]), now);
    case _ =>
  }

  /** Going to sleep adds one timer, if there is room, and that is keyed by what _less compares; it takes none out. */
  lemma SleepAdds(cfg: Config, s: State, timeout: int)
    requires Inv(cfg, s) && s.running != SELF && Step(cfg, s, DoSleep(timeout)).Some?
    ensures var t := Step(cfg, s, DoSleep(timeout)).value; var x := s.running;
            && x in t.status && t.status[x] == Sleep
            && multiset(t.timers) == multiset(s.timers) +
                 if |s.timers| == cfg.maxCoro then multiset{} else multiset{Entry(x, if cfg.byTimeout then timeout else At(s.words, x))}
  {
    InsertContents(s.timers, Entry(s.running, SleepKey(cfg, s, s.running, timeout)));
    SleepInv(cfg, s, timeout);
  }

  // ---------- Who wakes ----------

  lemma InvKnown(cfg: Config, s: State, x: Id)
    requires InvBut(cfg, s, x)
    ensures Known(s) && Asleep(s)
  {
  }

  lemma TickTimersAre(cfg: Config, s: State, now: int)
    requires Asleep(s)
    ensures Tick(cfg, s, now).timers == if s.ti >= 100 && now >= s.nextCheck then Left(cfg, s.timeouts, s.timers, now) else s.timers
  {
    if s.ti >= 100 && now >= s.nextCheck {
      CheckTimeOutMoves(cfg, s.(ti := 0), now);
    }
  }

  /** The timers change by a look, which leaves those that Left says, or by a sleep; and by nothing else. */
  lemma TimersStep(cfg: Config, s: State, op: Op)
    requires Inv(cfg, s) && Enabled(s, op) && Step(cfg, s, op).Some? && !op.DoSleep?
    ensures Step(cfg, s, op).value.timers == if Looks(s, op) then Left(cfg, s.timeouts, s.timers, op.now) else s.timers
  {
    InvKnown(cfg, s, SELF);
    match op
    case Loop(now) => TickTimersAre(cfg, s, now);
    case DoYield(now) =>
      YieldingInv(cfg, s);
      var u := s.(status := s.status[s.running := Yield]);
      InvKnown(cfg, u, s.running);
      TickTimersAre(cfg, u, now);
    case _ =>
  }

  /** c is awake: in line or running. */
  ghost predicate Awake(s: State, c: Id) {
    c in s.status && s.status[c] == Active && c !in Items(s.timers) && (c == s.running || c in s.active)
  }

  /** A coroutine whose timer goes is awake. */
  lemma WithoutTimer(cfg: Config, s: State, op: Op, c: Id)
    requires Inv(cfg, s) && Enabled(s, op) && Step(cfg, s, op).Some? && c in Items(s.timers)
    ensures c in Items(Step(cfg, s, op).value.timers) || Awake(Step(cfg, s, op).value, c)
  {
    var t := Step(cfg, s, op).value;
    StepInv(cfg, s, op);
    LostIff(cfg, s, op, c);
    StaysLive(cfg, s, op, c);
    if c !in Items(t.timers) {
      assert Placed(t, c);
    }
  }

  /** Who sleeps does not run. */
  lemma SleeperApart(cfg: Config, s: State, c: Id)
    requires Inv(cfg, s) && c in Items(s.timers)
    ensures c in s.status && c != SELF && c != s.running
  {
    if s.running != SELF { assert Placed(s, s.running); }
    assert Placed(s, c);
  }

  lemma StaysKnown(cfg: Config, s: State, op: Op, c: Id)
    requires Inv(cfg, s) && Enabled(s, op) && Step(cfg, s, op).Some? && c in Items(s.timers)
    ensures c in Step(cfg, s, op).value.status
  {
    SleeperApart(cfg, s, c);
    match op
    case Loop(now) => TickKeeps(cfg, s, now);
    case DoYield(now) => TickKeeps(cfg, s.(status := s.status[s.running := Yield]), now);
    case _ =>
  }

  /** Only who ran is handed to the scheduler. */
  lemma HandedOver(cfg: Config, s: State, op: Op)
    requires Inv(cfg, s) && Enabled(s, op) && Step(cfg, s, op).Some?
    ensures var r := Step(cfg, s, op).value.returned; r.None? || r.value == s.running
  {
    match op
    case Loop(now) => TickKeeps(cfg, s, now);
    case DoYield(now) => TickKeeps(cfg, s.(status := s.status[s.running := Yield]), now);
    case _ =>
  }

  lemma StaysLive(cfg: Config, s: State, op: Op, c: Id)
    requires Inv(cfg, s) && Enabled(s, op) && Step(cfg, s, op).Some? && c in Items(s.timers)
    ensures var t := Step(cfg, s, op).value; c in t.status && c != SELF && c != s.running && t.returned != Some(c)
  {
    SleeperApart(cfg, s, c);
    StaysKnown(cfg, s, op, c);
    HandedOver(cfg, s, op);
  }

  lemma KeptTimer(cfg: Config, s: State, op: Op, c: Id)
    requires Inv(cfg, s) && Enabled(s, op) && Step(cfg, s, op).Some? && c in Items(s.timers) && !Looks(s, op)
    ensures c in Items(Step(cfg, s, op).value.timers)
  {
    if op.DoSleep? {
      InsertItems(s.timers, Entry(s.running, SleepKey(cfg, s, s.running, op.timeout)));
    } else {
      TimersStep(cfg, s, op);
    }
  }

  lemma LeftItems(cfg: Config, tm: map<Id, int>, h: seq<Entry<Id>>, now: int, c: Id)
    requires cfg.wakeDue && cfg.whole && Ordered(h) && Keyed(tm, h) && c in Items(h)
    ensures c in Items(Left(cfg, tm, h, now)) <==> At(tm, c) > now
  {
    var l := Left(cfg, tm, h, now);
    RepairedPopsDue(cfg, tm, h, now);
    var e :| e in h && e.item == c;
    if At(tm, c) > now {
      LeftIfStops(cfg, tm, h, e, now);
    }
    if c in Items(l) {
      var d :| d in l && d.item == c;
      assert d in multiset(l);
    }
  }

  /** Repaired, a sleeper is woken by exactly those steps that look at the timers when it is due. */
  lemma WakesIff(cfg: Config, s: State, op: Op, c: Id)
    requires cfg.wakeDue && cfg.whole && cfg.byTimeout
    requires Inv(cfg, s) && Enabled(s, op) && Step(cfg, s, op).Some? && c in Items(s.timers)
    ensures var t := Step(cfg, s, op).value;
            if Looks(s, op) && At(s.timeouts, c) <= op.now then Awake(t, c) else c in Items(t.timers)
  {
    WithoutTimer(cfg, s, op, c);
    if Looks(s, op) {
      TimersStep(cfg, s, op);
      LeftItems(cfg, s.timeouts, s.timers, op.now, c);
    } else {
      KeptTimer(cfg, s, op, c);
    }
  }

  /** As written, but with timeouts compared, by exactly those that look when nobody's timeout is past. */
  lemma AsWrittenWakesIff(cfg: Config, s: State, op: Op, c: Id)
    requires !cfg.wakeDue && cfg.byTimeout
    requires Inv(cfg, s) && Enabled(s, op) && Step(cfg, s, op).Some? && c in Items(s.timers)
    ensures var t := Step(cfg, s, op).value;
            if Looks(s, op) && forall d :: d in Items(s.timers) ==> At(s.timeouts, d) >= op.now then Awake(t, c) else c in Items(t.timers)
  {
    WithoutTimer(cfg, s, op, c);
    if Looks(s, op) {
      TimersStep(cfg, s, op);
      KeyedEarliestFirst(s.timeouts, s.timers);
      AsWrittenPops(cfg, s.timeouts, s.timers, op.now);
      assert forall e :: e in s.timers ==> e.item in Items(s.timers);
    } else {
      KeptTimer(cfg, s, op, c);
    }
  }

  // ---------- Over runs ----------

  /** The switches and idle turns of a run. */
  ghost function Elapsed(cfg: Config, s: State, ops: seq<Op>): nat
    requires Inv(cfg, s)
    decreases |ops|
  {
    if ops == [] || !Enabled(s, ops[0]) || Step(cfg, s, ops[0]).None? then 0
    else
      StepInv(cfg, s, ops[0]);
      var t := Step(cfg, s, ops[0]).value;
      Weight(ops[0], t) + Elapsed(cfg, t, ops[1..])
  }

  /** Wherever the clock is read it shows at least at. */
  predicate NotBefore(ops: seq<Op>, at: int) {
    forall i :: 0 <= i < |ops| ==> Reads(ops[i]) ==> ops[i].now >= at
  }

  predicate NotAfter(ops: seq<Op>, at: int) {
    forall i :: 0 <= i < |ops| ==> Reads(ops[i]) ==> ops[i].now <= at
  }

  ghost predicate WokenAt(cfg: Config, s: State, ops: seq<Op>, n: nat, c: Id)
    requires Inv(cfg, s) && n <= |ops|
  {
    Exec(cfg, s, ops[..n]).Reached? && Awake(Exec(cfg, s, ops[..n]).state, c)
  }

  ghost predicate WokenDuring(cfg: Config, s: State, ops: seq<Op>, c: Id)
    requires Inv(cfg, s)
  {
    exists n :: 0 <= n <= |ops| && WokenAt(cfg, s, ops, n, c)
  }

  lemma WokenNow(cfg: Config, s: State, ops: seq<Op>, c: Id)
    requires Inv(cfg, s) && ops != [] && Enabled(s, ops[0]) && Step(cfg, s, ops[0]).Some? && Awake(Step(cfg, s, ops[0]).value, c)
    ensures WokenDuring(cfg, s, ops, c)
  {
    ExecAfterFirst(cfg, s, ops, 1);
    assert ops[1..][..0] == [];
    assert WokenAt(cfg, s, ops, 1, c);
  }

  lemma WokenAtNext(cfg: Config, s: State, ops: seq<Op>, u: State, c: Id, n: nat)
    requires Inv(cfg, s) && ops != [] && Enabled(s, ops[0]) && Step(cfg, s, ops[0]) == Some(u)
    requires Inv(cfg, u) && n < |ops| && WokenAt(cfg, u, ops[1..], n, c)
    ensures WokenAt(cfg, s, ops, n+1, c)
  {
    ExecAfterFirst(cfg, s, ops, n+1);
  }

  lemma WokenLater(cfg: Config, s: State, ops: seq<Op>, u: State, c: Id)
    requires Inv(cfg, s) && ops != [] && Enabled(s, ops[0]) && Step(cfg, s, ops[0]) == Some(u)
    requires Inv(cfg, u) && WokenDuring(cfg, u, ops[1..], c)
    ensures WokenDuring(cfg, s, ops, c)
  {
    var rest := ops[1..];
    var n :| 0 <= n <= |rest| && WokenAt(cfg, u, rest, n, c);
    WokenAtNext(cfg, s, ops, u, c, n);
  }

  /** c sleeps, and it will be time to look, and to wake c, when the clock shows due. */
  ghost predicate Due(cfg: Config, s: State, c: Id, due: int) {
    Inv(cfg, s) && c in Items(s.timers) && At(s.timeouts, c) <= due && s.nextCheck <= due
  }

  /** A step after which c still sleeps has been counted in ti. */
  lemma StillDue(cfg: Config, s: State, op: Op, c: Id, due: int)
    requires Due(cfg, s, c, due) && Enabled(s, op) && Step(cfg, s, op).Some? && (Reads(op) ==> op.now >= due) && !Looks(s, op)
    ensures var u := Step(cfg, s, op).value; Due(cfg, u, c, due) && u.ti == s.ti + Weight(op, u)
  {
    StepInv(cfg, s, op);
    KeptTimer(cfg, s, op, c);
    ClockStep(cfg, s, op);
    StaysLive(cfg, s, op, c);
    StepTimeouts(cfg, s, op, c);
  }

  lemma FirstOf(ops: seq<Op>, op: Op, due: int)
    requires NotBefore(ops + [op], due) && ops != []
    ensures (ops + [op])[0] == ops[0] && (ops + [op])[1..] == ops[1..] + [op]
    ensures (Reads(ops[0]) ==> ops[0].now >= due) && NotBefore(ops[1..] + [op], due)
  {
    var all := ops + [op];
    assert all[1..] == ops[1..] + [op];
    forall i | 0 <= i < |all[1..]| ensures Reads(all[1..][i]) ==> all[1..][i].now >= due {
      assert all[1..][i] == all[i+1];
    }
    assert all[0] == ops[0];
  }

  lemma LooksAndWakes(cfg: Config, s: State, ops: seq<Op>, c: Id, due: int)
    requires cfg.wakeDue && cfg.whole && cfg.byTimeout && Due(cfg, s, c, due)
    requires ops != [] && Enabled(s, ops[0]) && Step(cfg, s, ops[0]).Some? && Looks(s, ops[0]) && ops[0].now >= due
    ensures WokenDuring(cfg, s, ops, c)
  {
    WakesIff(cfg, s, ops[0], c);
    WokenNow(cfg, s, ops, c);
  }

  /** With nothing to keep it from looking, the scheduler has looked by the first reading after 100. */
  lemma {:induction false} WokenWithin(cfg: Config, s: State, ops: seq<Op>, op: Op, c: Id, due: int)
    requires cfg.wakeDue && cfg.whole && cfg.byTimeout
    requires Due(cfg, s, c, due) && NotBefore(ops + [op], due) && Exec(cfg, s, ops).Reached?
    requires var t := Exec(cfg, s, ops).state; Reads(op) && Enabled(t, op) && Step(cfg, t, op).Some?
    requires s.ti + Elapsed(cfg, s, ops) >= 100
    ensures WokenDuring(cfg, s, ops + [op], c)
    decreases |ops|
  {
    var all := ops + [op];
    if ops == [] {
      assert all[0] == op;
      LooksAndWakes(cfg, s, all, c, due);
    } else {
      FirstOf(ops, op, due);
      if Looks(s, ops[0]) {
        LooksAndWakes(cfg, s, all, c, due);
      } else {
        StillDue(cfg, s, ops[0], c, due);
        var u := Step(cfg, s, ops[0]).value;
        WokenWithin(cfg, u, ops[1..], op, c, due);
        WokenLater(cfg, s, all, u, c);
      }
    }
  }

  lemma {:induction false} NextCheckBound(cfg: Config, s: State, ops: seq<Op>, at: int)
    requires Inv(cfg, s) && Exec(cfg, s, ops).Reached? && NotAfter(ops, at) && s.nextCheck <= at + 200
    ensures Exec(cfg, s, ops).state.nextCheck <= at + 200
    decreases |ops|
  {
    if ops != [] {
      StepInv(cfg, s, ops[0]);
      ClockStep(cfg, s, ops[0]);
      assert NotAfter(ops[1..], at);
      NextCheckBound(cfg, Step(cfg, s, ops[0]).value, ops[1..], at);
    }
  }

  /**
   Repaired, every sleeper wakes.  After any run whose clock showed at most at, a sleeper is awake by the
   first reading that comes after 100 more switches, or two idle turns, or any mix of these, if the clock
   then shows at least at + 200 and its timeout.
   */
  lemma EverySleeperWakes(cfg: Config, start: int, before: seq<Op>, at: int, c: Id, after: seq<Op>, op: Op)
    requires cfg.wakeDue && cfg.whole && cfg.byTimeout
    requires start <= at && NotAfter(before, at) && ExecFromStart(cfg, start, before).Reached?
    requires var s := ExecFromStart(cfg, start, before).state;
             && c in s.status && s.status[c] == Sleep && !Lost(s, c)
             && NotBefore(after + [op], at + 200) && NotBefore(after + [op], At(s.timeouts, c))
             && Elapsed(cfg, s, after) >= 100 && Exec(cfg, s, after).Reached?
             && var t := Exec(cfg, s, after).state; Reads(op) && Enabled(t, op) && Step(cfg, t, op).Some?
    ensures WokenDuring(cfg, ExecFromStart(cfg, start, before).state, after + [op], c)
  {
    InitInv(cfg, start);
    NextCheckBound(cfg, Init(cfg, start), before, at);
    var s := ExecFromStart(cfg, start, before).state;
    var due := if at + 200 >= At(s.timeouts, c) then at + 200 else At(s.timeouts, c);
    WokenWithin(cfg, s, after, op, c, due);
  }

  // ---------- It goes on ----------

  /** Nobody in line: the scheduler idles. */
  ghost predicate Idle(s: State) {
    s.running == SELF && s.returned.None? && !s.stop && s.active == []
  }

  lemma IdleTurn(cfg: Config, s: State, now: int)
    requires Inv(cfg, s) && Idle(s) && !Looks(s, Loop(now))
    ensures var r := Step(cfg, s, Loop(now)); r.Some? && Inv(cfg, r.value) && Idle(r.value) && r.value.timers == s.timers && r.value.timeouts == s.timeouts
  {
    StepInv(cfg, s, Loop(now));
  }

  /** An idle scheduler wakes whoever is due in at most three turns. */
  lemma IdleWakes(cfg: Config, s: State, now: int, c: Id)
    requires cfg.wakeDue && cfg.whole && cfg.byTimeout
    requires Idle(s) && Due(cfg, s, c, now)
    ensures WokenDuring(cfg, s, [Loop(now), Loop(now), Loop(now)], c)
  {
    IdleWakesIn(cfg, s, now, c, [Loop(now), Loop(now), Loop(now)]);
  }

  lemma {:induction false} IdleWakesIn(cfg: Config, s: State, now: int, c: Id, ops: seq<Op>)
    requires cfg.wakeDue && cfg.whole && cfg.byTimeout
    requires Idle(s) && Due(cfg, s, c, now)
    requires (forall i :: 0 <= i < |ops| ==> ops[i] == Loop(now)) && ops != [] && s.ti + 50 * (|ops| - 1) >= 100
    ensures WokenDuring(cfg, s, ops, c)
    decreases |ops|
  {
    LoopInv(cfg, s, now);
    if Looks(s, ops[0]) {
      LooksAndWakes(cfg, s, ops, c, now);
    } else {
      IdleTurn(cfg, s, now);
      StillDue(cfg, s, Loop(now), c, now);
      var u := Step(cfg, s, Loop(now)).value;
      IdleWakesIn(cfg, u, now, c, ops[1..]);
      WokenLater(cfg, s, ops, u, c);
    }
  }

  /** Whoever has control can go on: a coroutine as it likes, and the scheduler until it has stopped. */
  lemma GoesOn(cfg: Config, s: State, now: int)
    requires Inv(cfg, s)
    ensures s.running != SELF ==>
              Enabled(s, DoYield(now)) && Step(cfg, s, DoYield(now)).Some? && Enabled(s, DoSleep(now)) && Enabled(s, Finish) && Step(cfg, s, Finish).Some?
    ensures s.running == SELF && s.returned.Some? ==> Enabled(s, Collect) && Step(cfg, s, Collect).Some?
    ensures s.running == SELF && s.returned.None? ==> Enabled(s, Spawn(now)) && Step(cfg, s, Spawn(now)).Some? && (Enabled(s, Loop(now)) <==> !s.stop)
  {
    if s.running != SELF { YieldInv(cfg, s, now); }
  }
}
