/**
 struct sche and the functions of coro/co_sche.c that update it, over the coroutines and the timer
 heap of Coroutines.Coros.  Each is proved to make the step of SchedulerSpec; that the steps keep
 SchedulerProperties.Inv, and which of them can fail, is proved there.
 */
module Schedulers {
  import opened Basics
  import opened HeapSpec
  import opened HeapProperties
  import opened SchedulerSpec
  import opened SchedulerProperties
  import opened SchedulerTime
  import opened Coroutines

  ghost predicate LeavesLoop(cfg: Config, s: State, now: int) {
    s.timers == [] || StopsAt(cfg, At(s.timeouts, s.timers[0].item), now)
  }

  ghost function Woken(cfg: Config, s: State): State
    requires Known(s) && s.timers != []
  {
    WokenKnown(cfg, s);
    Wake(s, s.timers[0].item).(timers := Pop(s.timers, cfg.whole))
  }

  lemma WokenKnown(cfg: Config, s: State)
    requires Known(s) && s.timers != []
    ensures var co := s.timers[0].item;
            co in s.status && Known(Wake(s, co).(timers := Pop(s.timers, cfg.whole)))
  {
    PopItems(s.timers, cfg.whole);
    assert s.timers[0] in s.timers;
    assert s.timers[0].item in Items(s.timers);
  }

  lemma TurnOfLoop(cfg: Config, s: State, now: int)
    requires Known(s)
    ensures if LeavesLoop(cfg, s, now) then CheckTimeOut(cfg, s, now) == s.(nextCheck := now + 200)
            else Known(Woken(cfg, s)) && |Woken(cfg, s).timers| < |s.timers| &&
                 CheckTimeOut(cfg, s, now) == CheckTimeOut(cfg, Woken(cfg, s), now)
  {
    if !LeavesLoop(cfg, s, now) { WokenKnown(cfg, s); }
  }

  lemma SleptKnown(cfg: Config, s: State, timeout: int)
    requires Known(s)
    ensures Known(Slept(cfg, s, timeout))
  {
    InsertItems(s.timers, Entry(s.running, SleepKey(cfg, s, s.running, timeout)));
  }

  class Scheduler {
    const cfg: Config
    const coros: Coros
    var active: seq<Id>
    var running: Id
    var current: Id
    var returned: Option<Id>
    var coroSize: int
    var stop: bool
    var ti: nat
    var nextCheck: int
    var nextId: Id

    ghost predicate Valid()
      reads this, coros, coros.repr
    {
      && coros.Valid() && this !in coros.repr && coros.byTimeout == cfg.byTimeout
      && coros.heap.maxSize == cfg.maxCoro && coros.heap.whole == cfg.whole && coros.heap.roomy == cfg.roomy
    }

    ghost function View(): State
      reads this, coros
    {
      State(coros.status, active, coros.timers, coros.timeouts, coros.words,
            running, current, returned, coroSize, stop, ti, nextCheck, nextId)
    }

    constructor (cfg: Config, now: int)
      ensures Valid() && this.cfg == cfg && View() == Init(cfg, now) && fresh(coros.repr)
    {
      this.cfg := cfg;
      coros := new Coros(cfg.maxCoro, cfg.whole, cfg.roomy, cfg.byTimeout);
      active := [];
      running, current, returned := SELF, SELF, None;
      coroSize, stop, ti, nextCheck, nextId := 0, false, 0, now + 200, 1;
      new;
      coros.New(SELF, if cfg.selfYields then Status.Yield else Start, 0);
    }

    // ---------- Timers ----------

    method WakeUp(co: Id)
      requires Valid() && co in coros.status
      modifies this, coros.repr
      ensures Valid() && coros.repr == old(coros.repr)
      ensures View() == Wake(old(View()), co)
    {
      var st := coros.StatusOf(co);
      if st != Active {
        coros.SetStatus(co, Active);
        active := active + [co];
      }
    }

    /** A turn of the loop in check_time_out that does not leave it. */
    method WakeFirst(ghost co: Id)
      requires Valid() && Known(View()) && View().timers != [] && co == View().timers[0].item
      modifies this, coros.repr
      ensures Valid() && coros.repr == old(coros.repr)
      ensures Known(View()) && co in old(View()).status && View() == Wake(old(View()), co).(timers := Pop(old(View()).timers, cfg.whole))
    {
      WokenKnown(cfg, View());
      ghost var s := View();
      var first := coros.FirstTimer();
      coros.PopTimer();
      assert View() == s.(timers := Pop(s.timers, cfg.whole));
      WakeUp(first.value.0);
      ghost var valid := coros.Valid();
      assert valid;
    }

    /** A turn of the loop in check_time_out; false where it leaves the loop. */
    method WakeNext(now: int) returns (woken: bool)
      requires Valid() && Known(View())
      modifies this, coros.repr
      ensures Valid() && coros.repr == old(coros.repr) && Known(View())
      ensures woken <==> !LeavesLoop(cfg, old(View()), now)
      ensures View() == if woken then Woken(cfg, old(View())) else old(View())
    {
      var first := coros.FirstTimer();
      if first.None? {
        return false;
      }
      if StopsAt(cfg, first.value.1, now) {
        return false;
      }
      WokenKnown(cfg, View());
      WakeFirst(first.value.0);
      return true;
    }

    method SetNextCheck(at: int)
      requires Valid()
      modifies this
      ensures Valid() && View() == old(View()).(nextCheck := at)
    {
      nextCheck := at;
      ghost var valid := coros.Valid();
      assert valid;
    }

    method CheckTimeOut(now: int)
      requires Valid() && Known(View())
      modifies this, coros.repr
      ensures Valid() && coros.repr == old(coros.repr)
      ensures View() == SchedulerSpec.CheckTimeOut(cfg, old(View()), now)
    {
      ghost var done := SchedulerSpec.CheckTimeOut(cfg, View(), now);
      while true
        invariant Valid() && coros.repr == old(coros.repr) && Known(View())
        invariant SchedulerSpec.CheckTimeOut(cfg, View(), now) == done
        decreases |View().timers|
      {
        TurnOfLoop(cfg, View(), now);
        var woken := WakeNext(now);
        if !woken {
          break;
        }
      }
      SetNextCheck(now + 200);
    }

    method Tick(now: int)
      requires Valid() && Known(View())
      modifies this, coros.repr
      ensures Valid() && coros.repr == old(coros.repr)
      ensures View() == SchedulerSpec.Tick(cfg, old(View()), now)
    {
      if ti >= 100 {
        ti := 0;
        if now >= nextCheck {
          CheckTimeOut(now);
        }
      }
    }

    // ---------- Steps ----------

    /** The one that leaves goes to the back of the line, if it yielded. */
    method Requeue(co: Id)
      requires Valid() && co in coros.status
      modifies this, coros.repr
      ensures Valid() && coros.repr == old(coros.repr)
      ensures var s := old(View());
              View() == if s.status[co] == Status.Yield then s.(status := s.status[co := Active], active := s.active + [co]) else s
    {
      var st := coros.StatusOf(co);
      if st == Status.Yield {
        coros.SetStatus(co, Active);
        active := active + [co];
      }
    }

    /** _sche_next: false where its assertion fails. */
    method Next(co: Id) returns (ok: bool)
      requires Valid() && Known(View()) && co in coros.status
      modifies this, coros.repr
      ensures Valid() && coros.repr == old(coros.repr)
      ensures Dispatch(old(View()), co) == if ok then Some(View()) else None
    {
      var next := SELF;
      if active != [] {
        next, active := active[0], active[1..];
      }
      Requeue(co);
      if co == next {
        return false;
      }
      SwitchTo(co, next);
      return true;
    }

    method SwitchTo(co: Id, next: Id)
      requires Valid()
      modifies this
      ensures Valid()
      ensures View() == old(View()).(running := next, current := next, ti := old(View()).ti + 1,
                                     returned := if next == SELF then Some(co) else old(View()).returned)
    {
      running, current, ti := next, next, ti + 1;
      if next == SELF {
        returned := Some(co);
      }
    }

    /** sche_spawn, and what coro_fun does before it switches back. */
    method Spawn(word: int) returns (co: Id)
      requires Valid() && Known(View()) && Enabled(View(), Op.Spawn(word)) && nextId !in coros.status
      modifies this, coros.repr
      ensures Valid() && fresh(coros.repr - old(coros.repr)) && co == old(nextId)
      ensures Some(View()) == Step(cfg, old(View()), Op.Spawn(word))
    {
      co := nextId;
      nextId := nextId + 1;
      coroSize := coroSize + 1;
      active := active + [co];
      coros.New(co, Active, word);
    }

    /** coro_yield */
    method Yield(now: int) returns (ok: bool)
      requires Valid() && Known(View()) && Enabled(View(), DoYield(now))
      modifies this, coros.repr
      ensures Valid() && coros.repr == old(coros.repr)
      ensures Step(cfg, old(View()), DoYield(now)) == if ok then Some(View()) else None
    {
      var co := running;
      coros.SetStatus(co, Status.Yield);
      TickKeeps(cfg, View(), now);
      Tick(now);
      ok := Next(co);
    }

    /** sche_add_timeout up to the switch. */
    method AddTimeout(timeout: int) returns (inside: bool)
      requires Valid() && running in coros.status && running !in Items(coros.timers)
      modifies coros.repr
      ensures Valid() && coros.repr == old(coros.repr)
      ensures inside <==> !Overflows(cfg, old(View()).timers)
      ensures inside ==> View() == Slept(cfg, old(View()), timeout)
    {
      coros.SetStatus(running, Status.Sleep);
      inside := coros.AddTimer(running, timeout);
    }

    /** coro_sleep until timeout; false where _sche_next's assertion fails or the heap's array is too short. */
    method Sleep(timeout: int) returns (ok: bool)
      requires Valid() && Known(View()) && Enabled(View(), DoSleep(timeout)) && running !in Items(coros.timers)
      modifies this, coros.repr
      ensures Valid() && coros.repr == old(coros.repr)
      ensures Step(cfg, old(View()), DoSleep(timeout)) == if ok then Some(View()) else None
    {
      SleptKnown(cfg, View(), timeout);
      ok := AddTimeout(timeout);
      if ok {
        ok := Next(running);
      }
    }

    /** The end of coro_fun. */
    method Finish()
      requires Valid() && Known(View()) && Enabled(View(), Op.Finish)
      modifies this, coros.repr
      ensures Valid() && coros.repr == old(coros.repr)
      ensures Some(View()) == Step(cfg, old(View()), Op.Finish)
    {
      coros.SetStatus(running, Die);
      returned := Some(running);
      running := SELF;
    }

    /** One turn of the loop of sche_schedule up to the switch. */
    method Turn(now: int) returns (ok: bool)
      requires Valid() && Known(View()) && Enabled(View(), Loop(now))
      modifies this, coros.repr
      ensures Valid() && coros.repr == old(coros.repr)
      ensures Step(cfg, old(View()), Loop(now)) == if ok then Some(View()) else None
    {
      TickKeeps(cfg, View(), now);
      Tick(now);
      if active == [] {
        ti := ti + 50;
        return true;
      }
      ok := Next(SELF);
    }

    /** The rest of that turn, when the scheduler is switched back to. */
    method Collect()
      requires Valid() && Known(View()) && Enabled(View(), Op.Collect)
      modifies this, coros.repr
      ensures Valid() && coros.repr == old(coros.repr)
      ensures Some(View()) == Step(cfg, old(View()), Op.Collect)
    {
      var co := returned.value;
      var st := coros.StatusOf(co);
      var waits := coros.HasTimer(co);
      returned := None;
      if st == Die && !waits {
        Drop(co);
      }
      ghost var valid := coros.Valid();
      assert valid;
    }

    method Drop(co: Id)
      requires Valid() && co in coros.status && co !in Items(coros.timers)
      modifies this, coros.repr
      ensures Valid() && coros.repr == old(coros.repr)
      ensures var s := old(View());
              View() == s.(status := s.status - {co}, coroSize := s.coroSize - 1, stop := s.stop || s.coroSize - 1 == 0)
    {
      coros.Destroy(co);
      coroSize := coroSize - 1;
      if coroSize == 0 {
        stop := true;
      }
      ghost var valid := coros.Valid();
      assert valid;
    }
  }

  /** Repaired, the sleepers whose timers a step takes away are those that are due when it looks, and they are awake. */
  ghost predicate WakesTheDue(cfg: Config, s: State, op: Op, t: State) {
    cfg.wakeDue && cfg.whole && cfg.byTimeout ==>
      forall c :: c in Items(s.timers) ==> if Looks(s, op) && At(s.timeouts, c) <= op.now then Awake(t, c) else c in Items(t.timers)
  }

  lemma StepWakesTheDue(cfg: Config, s: State, op: Op)
    requires Inv(cfg, s) && Enabled(s, op) && Step(cfg, s, op).Some?
    ensures WakesTheDue(cfg, s, op, Step(cfg, s, op).value)
  {
    if cfg.wakeDue && cfg.whole && cfg.byTimeout {
      forall c | c in Items(s.timers)
        ensures var t := Step(cfg, s, op).value; if Looks(s, op) && At(s.timeouts, c) <= op.now then Awake(t, c) else c in Items(t.timers)
      {
        WakesIff(cfg, s, op, c);
      }
    }
  }

  /** Any operation that the scheduler's context allows, done to its memory, keeps the invariant or fails where SchedulerProperties.StepInv says. */
  method Do(s: Scheduler, op: Op) returns (ok: bool)
    requires s.Valid() && Inv(s.cfg, s.View()) && Enabled(s.View(), op)
    modifies s, s.coros.repr
    ensures s.Valid() && fresh(s.coros.repr - old(s.coros.repr))
    ensures Step(s.cfg, old(s.View()), op) == if ok then Some(s.View()) else None
    ensures ok ==> Inv(s.cfg, s.View()) && WakesTheDue(s.cfg, old(s.View()), op, s.View())
    ensures !ok <==> OwnFirst(old(s.View()), op) || (op.DoSleep? && Overflows(s.cfg, old(s.View()).timers))
  {
    ghost var before := s.View();
    Ready(s.cfg, before);
    ok := DoStep(s, op);
    StepInv(s.cfg, before, op);
    if ok { StepWakesTheDue(s.cfg, before, op); }
    ghost var kept := ok ==> Inv(s.cfg, s.View()) && WakesTheDue(s.cfg, before, op, s.View());
    assert kept;
  }

  method DoStep(s: Scheduler, op: Op) returns (ok: bool)
    requires s.Valid() && Known(s.View()) && Enabled(s.View(), op)
    requires s.nextId !in s.coros.status && (s.running != SELF ==> s.running !in Items(s.coros.timers))
    modifies s, s.coros.repr
    ensures s.Valid() && fresh(s.coros.repr - old(s.coros.repr))
    ensures Step(s.cfg, old(s.View()), op) == if ok then Some(s.View()) else None
  {
    ok := true;
    match op
    case Spawn(word) => var _ := s.Spawn(word);
    case Loop(now) => ok := s.Turn(now);
    case Collect => s.Collect();
    case DoYield(now) => ok := s.Yield(now);
    case DoSleep(timeout) => ok := s.Sleep(timeout);
    case Finish => s.Finish();
  }
}
