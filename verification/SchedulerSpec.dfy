/**
 coro/co_sche.c as a state machine.  One step is what runs between two context switches, or one
 turn of the scheduler's loop; `uthread_switch` is the change of `running`.

 Five places where the code misses its intent are parameters, so that each property is stated for
 the code as written and for the repaired code at once.
 */
module SchedulerSpec {
  import opened Basics
  import opened HeapSpec
  import opened HeapProperties

  type Id = nat

  /** The scheduler's own coroutine. */
  const SELF: Id := 0

  datatype Status = Yield | Sleep | Active | Die | Start

  datatype Config = Config(
    maxCoro: nat,
    selfYields: bool,   // as written, the scheduler's own coroutine starts with status 0, CORO_YIELD
    wakeDue: bool,      // repaired, check_time_out stops at the first sleeper that is not yet due
    whole: bool,        // repaired, the timer heap sifts down over every slot
    roomy: bool,        // repaired, the timer heap's array has a slot for each of maxCoro coroutines
    byTimeout: bool)    // repaired, _less compares timeouts; as written its cast makes it compare another word

  function AsWritten(maxCoro: nat): Config { Config(maxCoro, true, false, false, false, false) }
  function Repaired(maxCoro: nat): Config { Config(maxCoro, false, true, true, true, true) }

  datatype State = State(
    status: map<Id, Status>,     // of the coroutines not destroyed
    active: seq<Id>,             // active_list
    timers: seq<Entry<Id>>,      // _minheap, keyed by what _less compares
    timeouts: map<Id, int>,      // co->timeout
    words: map<Id, int>,         // the word of co->arg that _less as written takes for the timeout
    running: Id,
    current: Id,                 // current_coro
    returned: Option<Id>,        // what uthread_switch gave the scheduler and it has not looked at
    coroSize: int,
    stop: bool,
    ti: nat,
    nextCheck: int,
    nextId: Id)

  /** Nothing that the code goes on to use refers to a destroyed coroutine; current_coro may. */
  ghost predicate Known(s: State) {
    && SELF in s.status && s.running in s.status
    && (forall c :: c in s.active ==> c in s.status)
    && Items(s.timers) <= s.status.Keys
    && (s.returned.Some? ==> s.returned.value in s.status)
  }

  function Init(cfg: Config, now: int): (s: State) {
    State(map[SELF := if cfg.selfYields then Yield else Start], [], [], map[SELF := 0], map[SELF := 0],
          SELF, SELF, None, 0, false, 0, now + 200, 1)
  }

  // ---------- Timers ----------

  function At(m: map<Id, int>, c: Id): int {
    if c in m then m[c] else 0
  }

  /** The test on which check_time_out leaves its loop. */
  predicate StopsAt(cfg: Config, timeout: int, now: int) {
    if cfg.wakeDue then timeout > now else timeout < now
  }

  lemma PopItems<T>(h: seq<Entry<T>>, whole: bool)
    requires h != []
    ensures Items(h) == Items(Pop(h, whole)) + {h[0].item}
  {
    var g := Pop(h, whole);
    PopContents(h, whole);
    forall x | x in Items(h) ensures x in Items(g) + {h[0].item} {
      var e :| e in h && e.item == x;
      assert e in multiset(h);
    }
    forall x | x in Items(g) ensures x in Items(h) {
      var e :| e in g && e.item == x;
      assert e in multiset(g);
      assert e in multiset(h);
    }
  }

  function Wake(s: State, co: Id): (r: State)
    requires co in s.status
  {
    if s.status[co] != Active then s.(status := s.status[co := Active], active := s.active + [co]) else s
  }

  function CheckTimeOut(cfg: Config, s: State, now: int): (r: State)
    requires Known(s)
    ensures Known(r)
    decreases |s.timers|
  {
    if s.timers == [] || StopsAt(cfg, At(s.timeouts, s.timers[0].item), now) then
      s.(nextCheck := now + 200)
    else
      PopItems(s.timers, cfg.whole);
      CheckTimeOut(cfg, Wake(s, s.timers[0].item).(timers := Pop(s.timers, cfg.whole)), now)
  }

  /** Every hundredth switch the clock is read, and the timers looked at if it is time. */
  function Tick(cfg: Config, s: State, now: int): (r: State)
    requires Known(s)
    ensures Known(r)
  {
    if s.ti < 100 then s
    else if now < s.nextCheck then s.(ti := 0)
    else CheckTimeOut(cfg, s.(ti := 0), now)
  }

  // ---------- Steps ----------

  /** _sche_next; None where its assertion fails. */
  function Dispatch(s: State, co: Id): (r: Option<State>)
    requires Known(s) && co in s.status
    ensures r.Some? ==> Known(r.value)
  {
    var next := if s.active == [] then SELF else s.active[0];
    var rest := if s.active == [] then [] else s.active[1..];
    var again := s.status[co] == Yield;
    if co == next then None
    else Some(s.(
      status := if again then s.status[co := Active] else s.status,
      active := if again then rest + [co] else rest,
      running := next, current := next, ti := s.ti + 1,
      returned := if next == SELF then Some(co) else s.returned))
  }

  /** sche_spawn up to the switch back from coro_fun. */
  function SpawnStep(s: State, word: int): State
    requires Known(s)
  {
    s.(status := s.status[s.nextId := Active], timeouts := s.timeouts[s.nextId := 0], words := s.words[s.nextId := word],
       active := s.active + [s.nextId], coroSize := s.coroSize + 1, nextId := s.nextId + 1)
  }

  /** coro_yield by the running coroutine. */
  function YieldStep(cfg: Config, s: State, now: int): Option<State>
    requires Known(s)
  {
    var t := Tick(cfg, s.(status := s.status[s.running := Yield]), now);
    TickKeeps(cfg, s.(status := s.status[s.running := Yield]), now);
    Dispatch(t, s.running)
  }

  lemma {:induction false} CheckTimeOutKeeps(cfg: Config, s: State, now: int)
    requires Known(s)
    ensures var r := CheckTimeOut(cfg, s, now);
            r == s.(status := r.status, active := r.active, timers := r.timers, nextCheck := r.nextCheck) &&
            r.status.Keys == s.status.Keys && s.active <= r.active
    decreases |s.timers|
  {
    if s.timers != [] && !StopsAt(cfg, At(s.timeouts, s.timers[0].item), now) {
      PopItems(s.timers, cfg.whole);
      CheckTimeOutKeeps(cfg, Wake(s, s.timers[0].item).(timers := Pop(s.timers, cfg.whole)), now);
    }
  }

  lemma TickKeeps(cfg: Config, s: State, now: int)
    requires Known(s)
    ensures var r := Tick(cfg, s, now);
            r == s.(status := r.status, active := r.active, timers := r.timers, nextCheck := r.nextCheck, ti := r.ti) &&
            r.status.Keys == s.status.Keys && s.active <= r.active
  {
    if s.ti >= 100 && now >= s.nextCheck {
      CheckTimeOutKeeps(cfg, s.(ti := 0), now);
    }
  }

  /** minheap_insert of an element that is not in the heap: a full heap drops it. */
  function AddTimer(cfg: Config, h: seq<Entry<Id>>, co: Id, key: int): seq<Entry<Id>> {
    if |h| >= cfg.maxCoro then h else Insert(h, Entry(co, key))
  }

  /** minheap_insert would write past the end of the heap's array. */
  predicate Overflows(cfg: Config, h: seq<Entry<Id>>) {
    |h| < cfg.maxCoro && !InsertFits(cfg.roomy, cfg.maxCoro, |h|)
  }

  /** What _less compares for a coroutine that sleeps until timeout. */
  function SleepKey(cfg: Config, s: State, co: Id, timeout: int): int {
    if cfg.byTimeout then timeout else At(s.words, co)
  }

  lemma InsertItems<T>(h: seq<Entry<T>>, e: Entry<T>)
    ensures Items(Insert(h, e)) == Items(h) + {e.item}
  {
    var g := Insert(h, e);
    InsertContents(h, e);
    forall x | x in Items(g) ensures x in Items(h) + {e.item} {
      var n :| n in g && n.item == x;
      assert n in multiset(g);
    }
    forall x | x in Items(h) + {e.item} ensures x in Items(g) {
      var n :| (n in h || n == e) && n.item == x;
      assert n in multiset(h) + multiset{e};
      assert n in multiset(g);
    }
  }

  /** coro_sleep by the running coroutine, up to the switch. */
  function Slept(cfg: Config, s: State, timeout: int): State
  {
    s.(status := s.status[s.running := Sleep], timeouts := s.timeouts[s.running := timeout],
       timers := AddTimer(cfg, s.timers, s.running, SleepKey(cfg, s, s.running, timeout)))
  }

  /** coro_sleep; None where it would write past the end of the heap's array. */
  function SleepStep(cfg: Config, s: State, timeout: int): Option<State>
    requires Known(s)
  {
    InsertItems(s.timers, Entry(s.running, SleepKey(cfg, s, s.running, timeout)));
    if Overflows(cfg, s.timers) then None else Dispatch(Slept(cfg, s, timeout), s.running)
  }

  /** The end of coro_fun: straight to the scheduler, past the active list and current_coro. */
  function DieStep(s: State): State
    requires Known(s)
  {
    s.(status := s.status[s.running := Die], running := SELF, returned := Some(s.running))
  }

  /** What the scheduler does with the coroutine it was switched to from. */
  function CollectStep(s: State): State
    requires Known(s) && s.returned.Some?
  {
    var co := s.returned.value;
    if s.status[co] == Die && co !in Items(s.timers) then
      s.(status := s.status - {co}, coroSize := s.coroSize - 1, stop := s.stop || s.coroSize - 1 == 0, returned := None)
    else
      s.(returned := None)
  }

  /** One turn of sche_schedule's loop, up to the switch. */
  function LoopStep(cfg: Config, s: State, now: int): Option<State>
    requires Known(s)
  {
    var t := Tick(cfg, s, now);
    TickKeeps(cfg, s, now);
    if t.active == [] then Some(t.(ti := t.ti + 50)) else Dispatch(t, SELF)
  }

  datatype Op = Spawn(word: int) | Loop(now: int) | Collect | DoYield(now: int) | DoSleep(timeout: int) | Finish

  /** Who may do what: only the scheduler's own context spawns, loops and collects. */
  predicate Enabled(s: State, op: Op) {
    match op
    case Spawn(_) => s.running == SELF && s.returned.None?
    case Loop(_) => s.running == SELF && s.returned.None? && !s.stop
    case Collect => s.running == SELF && s.returned.Some?
    case _ => s.running != SELF
  }

  function Step(cfg: Config, s: State, op: Op): (r: Option<State>)
    requires Known(s) && Enabled(s, op)
  {
    match op
    case Spawn(word) => Some(SpawnStep(s, word))
    case Loop(now) => LoopStep(cfg, s, now)
    case Collect => Some(CollectStep(s))
    case DoYield(now) => YieldStep(cfg, s, now)
    case DoSleep(timeout) => SleepStep(cfg, s, timeout)
    case Finish => Some(DieStep(s))
  }
}
