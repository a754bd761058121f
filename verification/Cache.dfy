/** Coalescing cache loads (`internal/cache/cache.go`, `Fetch`, `FetchWithStale`, `refreshStaleValue`) as interleaved
    steps on one key: its main and stale copies, the shared load, the background refresh and any number of callers. */
module Cache {
  import opened Bytes

  type Value = nat

  // ---- Entries and their lifetime ----------------------------------------------------------

  /** A stored value; `expireAt` 0 means it never expires. Times are whole seconds. */
  datatype Entry = Entry(value: Value, storedAt: nat, expireAt: nat)

  predicate Live(e: Option<Entry>, now: nat)
  {
    e.Some? && (e.value.expireAt == 0 || now < e.value.expireAt)
  }

  /** `MemoryCache.Set`: the lifetime is cut to whole seconds, and zero seconds means for ever. */
  function Stored(v: Value, now: nat, millis: nat): Entry
  {
    Entry(v, now, if millis / 1000 == 0 then 0 else now + millis / 1000)
  }

  ghost predicate GoneFrom(e: Entry, bound: nat)
  {
    forall now: nat :: now >= bound ==> !Live(Some(e), now)
  }

  /** A stored value ever expires exactly when its lifetime is at least one second; then it is served for the whole
      seconds of its lifetime and never once they are over. */
  lemma {:induction false} LifetimeBounds(v: Value, t: nat, millis: nat)
    ensures millis >= 1000 <==> exists bound: nat :: GoneFrom(Stored(v, t, millis), bound)
    ensures millis >= 1000 ==>
              forall now: nat :: now >= t && Live(Some(Stored(v, t, millis)), now) ==> (now - t) * 1000 < millis
    ensures millis >= 1000 ==>
              forall now: nat :: Live(Some(Stored(v, t, millis)), now) <==> now < t + millis / 1000
    ensures millis < 1000 ==> forall now: nat :: Live(Some(Stored(v, t, millis)), now)
    ensures Stored(v, t, millis).value == v
  {
    var e := Stored(v, t, millis);
    if millis >= 1000 {
      assert GoneFrom(e, t + millis);
    } else {
      forall bound: nat
        ensures !GoneFrom(e, bound)
      {
        assert Live(Some(e), bound);
      }
    }
  }

  // ---- The state ------------------------------------------------------------------------------

  datatype Config = Config(ttl: nat, staleTtl: nat, withStale: bool)
  {
    function LongTtl(): nat { Max(ttl, staleTtl) }
  }

  /** What a load hands to its waiters; `age` is how long ago the value was stored when it was read, 0 if just loaded. */
  datatype Outcome = Got(value: Value, age: nat) | Failed

  datatype Phase =
    | Queued            // created, cache not looked at again yet
    | Missed            // looked again, no live value
    | Loading           // the load function runs
    | Loaded(value: Value)
    | MainStored(value: Value)
    | Finished(outcome: Outcome)

  datatype Flight = Flight(id: nat, phase: Phase)

  datatype Caller =
    | Start
    | NoMain
    | Joining
    | Waiting(flight: nat)
    | FromStore(value: Value, age: nat)
    | FromFlight(id: nat, outcome: Outcome)
    | Cancelled

  datatype State = State(now: nat, main: Option<Entry>, stale: Option<Entry>, callers: seq<Caller>,
                         flight: Option<Flight>, outcomes: map<nat, Outcome>, nextFlight: nat,
                         refreshers: nat, refresh: Option<Phase>)

  datatype Event =
    | GetMain(c: nat)
    | GetStale(c: nat)
    | Join(c: nat)
    | Cancel(c: nat)
    | LookAgain
    | StartLoad
    | EndLoad(result: Option<Value>)
    | StoreMain
    | StoreStale
    | Deliver
    | RefreshBegin
    | RefreshLook
    | RefreshLoad(result: Option<Value>)
    | RefreshMain
    | RefreshStale
    | Tick
    | DropMain
    | DropStale

  function Init(n: nat): State
  {
    State(0, None, None, seq(n, _ => Start), None, map[], 0, 0, None)
  }

  predicate InPhase(s: State, p: Phase) { s.flight.Some? && s.flight.value.phase == p }

  predicate Enabled(cfg: Config, s: State, ev: Event)
  {
    match ev
    case GetMain(c) => c < |s.callers| && s.callers[c].Start?
    case GetStale(c) => c < |s.callers| && s.callers[c].NoMain? && cfg.withStale
    case Join(c) => c < |s.callers| && (s.callers[c].Joining? || (s.callers[c].NoMain? && !cfg.withStale))
    case Cancel(c) => c < |s.callers| && s.callers[c].Waiting?
    case LookAgain => InPhase(s, Queued)
    case StartLoad => InPhase(s, Missed)
    case EndLoad(_) => InPhase(s, Loading)
    case StoreMain => s.flight.Some? && s.flight.value.phase.Loaded?
    case StoreStale => s.flight.Some? && s.flight.value.phase.MainStored?
    case Deliver => s.flight.Some? && s.flight.value.phase.Finished?
    case RefreshBegin => s.refreshers > 0
    case RefreshLook => s.refresh == Some(Queued)
    case RefreshLoad(_) => s.refresh == Some(Loading)
    case RefreshMain => s.refresh.Some? && s.refresh.value.Loaded?
    case RefreshStale => s.refresh.Some? && s.refresh.value.MainStored?
    case Tick => true
    case DropMain => true
    case DropStale => true
  }

  function SetPhase(s: State, p: Phase): State
    requires s.flight.Some?
  {
    s.(flight := Some(s.flight.value.(phase := p)))
  }

  function Age(s: State, e: Entry): nat { Max(s.now - e.storedAt, 0) }

  /** Every waiter of the finished flight gets its outcome. */
  function Served(callers: seq<Caller>, id: nat, outcome: Outcome): seq<Caller>
  {
    seq(|callers|, i requires 0 <= i < |callers| =>
      if callers[i] == Waiting(id) then FromFlight(id, outcome) else callers[i])
  }

  /** The steps of the callers. */
  function CallerStep(cfg: Config, s: State, ev: Event): State
    requires Enabled(cfg, s, ev) && (ev.GetMain? || ev.GetStale? || ev.Join? || ev.Cancel?)
  {
    match ev
    case GetMain(c) =>
      if Live(s.main, s.now)
      then s.(callers := s.callers[c := FromStore(s.main.value.value, Age(s, s.main.value))])
      else s.(callers := s.callers[c := NoMain])
    case GetStale(c) =>
      if Live(s.stale, s.now)
      then s.(callers := s.callers[c := FromStore(s.stale.value.value, Age(s, s.stale.value))],
              refreshers := s.refreshers + 1)
      else s.(callers := s.callers[c := Joining])
    case Join(c) =>
      if s.flight.Some? then s.(callers := s.callers[c := Waiting(s.flight.value.id)])
      else s.(callers := s.callers[c := Waiting(s.nextFlight)],
              flight := Some(Flight(s.nextFlight, Queued)), nextFlight := s.nextFlight + 1)
    case Cancel(c) => s.(callers := s.callers[c := Cancelled])
  }

  /** The steps of the shared load. */
  function FlightStep(cfg: Config, s: State, ev: Event): State
    requires Enabled(cfg, s, ev)
    requires ev.LookAgain? || ev.StartLoad? || ev.EndLoad? || ev.StoreMain? || ev.StoreStale? || ev.Deliver?
  {
    match ev
    case LookAgain =>
      if Live(s.main, s.now) then SetPhase(s, Finished(Got(s.main.value.value, Age(s, s.main.value))))
      else SetPhase(s, Missed)
    case StartLoad => SetPhase(s, Loading)
    case EndLoad(result) => SetPhase(s, if result.Some? then Loaded(result.value) else Finished(Failed))
    case StoreMain =>
      var v := s.flight.value.phase.value;
      SetPhase(s, if cfg.withStale then MainStored(v) else Finished(Got(v, 0))).(main := Some(Stored(v, s.now, cfg.ttl)))
    case StoreStale =>
      var v := s.flight.value.phase.value;
      SetPhase(s, Finished(Got(v, 0))).(stale := Some(Stored(v, s.now, cfg.LongTtl())))
    case Deliver =>
      var f := s.flight.value;
      s.(flight := None, outcomes := s.outcomes[f.id := f.phase.outcome],
         callers := Served(s.callers, f.id, f.phase.outcome))
  }

  /** The steps of the background refresh, and of the world. */
  function OtherStep(cfg: Config, s: State, ev: Event): State
    requires Enabled(cfg, s, ev)
    requires ev.RefreshBegin? || ev.RefreshLook? || ev.RefreshLoad? || ev.RefreshMain? || ev.RefreshStale?
             || ev.Tick? || ev.DropMain? || ev.DropStale?
  {
    match ev
    case RefreshBegin => s.(refreshers := s.refreshers - 1, refresh := if s.refresh.Some? then s.refresh else Some(Queued))
    case RefreshLook => s.(refresh := if Live(s.main, s.now) then None else Some(Loading))
    case RefreshLoad(result) => s.(refresh := if result.Some? then Some(Loaded(result.value)) else None)
    case RefreshMain =>
      var v := s.refresh.value.value;
      s.(main := Some(Stored(v, s.now, cfg.ttl)), refresh := Some(MainStored(v)))
    case RefreshStale =>
      s.(stale := Some(Stored(s.refresh.value.value, s.now, cfg.LongTtl())), refresh := None)
    case Tick => s.(now := s.now + 1)
    case DropMain => s.(main := None)
    case DropStale => s.(stale := None)
  }

  function Step(cfg: Config, s: State, ev: Event): State
    requires Enabled(cfg, s, ev)
  {
    if ev.GetMain? || ev.GetStale? || ev.Join? || ev.Cancel? then CallerStep(cfg, s, ev)
    else if ev.LookAgain? || ev.StartLoad? || ev.EndLoad? || ev.StoreMain? || ev.StoreStale? || ev.Deliver?
    then FlightStep(cfg, s, ev)
    else OtherStep(cfg, s, ev)
  }

  // ---- What always holds ---------------------------------------------------------------------------

  predicate EntryOk(e: Option<Entry>, now: nat, millis: nat)
  {
    e.Some? ==> e.value.storedAt <= now && e.value == Stored(e.value.value, e.value.storedAt, millis)
  }

  /** With lifetimes of at least a second, nothing older than the longer lifetime is handed out. */
  predicate YoungEnough(cfg: Config, age: nat)
  {
    cfg.ttl >= 1000 ==> age * 1000 < cfg.LongTtl()
  }

  predicate OutcomeOk(cfg: Config, o: Outcome) { o.Got? ==> YoungEnough(cfg, o.age) }

  predicate CallerOk(cfg: Config, s: State, c: Caller)
  {
    match c
    case Waiting(id) => s.flight.Some? && s.flight.value.id == id
    case FromStore(_, age) => YoungEnough(cfg, age)
    case FromFlight(id, o) => id in s.outcomes && s.outcomes[id] == o
    case _ => true
  }

  /** The shared load has looked again, found nothing, and not stored its value yet. */
  predicate MissedAndUnstored(s: State)
  {
    s.flight.Some? && (s.flight.value.phase.Missed? || s.flight.value.phase.Loading? || s.flight.value.phase.Loaded?)
  }

  predicate FlightOk(cfg: Config, s: State)
  {
    s.flight.Some? ==>
      var f := s.flight.value;
      && f.id + 1 == s.nextFlight && f.id !in s.outcomes
      && (f.phase.Finished? ==> OutcomeOk(cfg, f.phase.outcome))
      && (!cfg.withStale && MissedAndUnstored(s) ==> !Live(s.main, s.now))
  }

  predicate Inv(cfg: Config, s: State)
  {
    && EntryOk(s.main, s.now, cfg.ttl) && EntryOk(s.stale, s.now, cfg.LongTtl())
    && (forall i :: 0 <= i < |s.callers| ==> CallerOk(cfg, s, s.callers[i]))
    && FlightOk(cfg, s)
    && (forall id :: id in s.outcomes ==> id < s.nextFlight && OutcomeOk(cfg, s.outcomes[id]))
    && (!cfg.withStale ==> s.refreshers == 0 && s.refresh.None?)
  }

  lemma {:induction false} LiveIsYoung(cfg: Config, s: State, e: Option<Entry>, millis: nat)
    requires EntryOk(e, s.now, millis) && Live(e, s.now) && (millis == cfg.ttl || millis == cfg.LongTtl())
    ensures YoungEnough(cfg, Age(s, e.value))
  {
  }

  lemma {:induction false} CallerStepInv(cfg: Config, s: State, ev: Event)
    requires Inv(cfg, s) && Enabled(cfg, s, ev) && (ev.GetMain? || ev.GetStale? || ev.Join? || ev.Cancel?)
    ensures Inv(cfg, CallerStep(cfg, s, ev))
  {
    if ev.GetMain? && Live(s.main, s.now) {
      LiveIsYoung(cfg, s, s.main, cfg.ttl);
    } else if ev.GetStale? && Live(s.stale, s.now) {
      LiveIsYoung(cfg, s, s.stale, cfg.LongTtl());
    }
  }

  lemma {:induction false} FlightStepInv(cfg: Config, s: State, ev: Event)
    requires Inv(cfg, s) && Enabled(cfg, s, ev)
    requires ev.LookAgain? || ev.StartLoad? || ev.EndLoad? || ev.StoreMain? || ev.StoreStale? || ev.Deliver?
    ensures Inv(cfg, FlightStep(cfg, s, ev))
  {
    if ev.LookAgain? && Live(s.main, s.now) {
      LiveIsYoung(cfg, s, s.main, cfg.ttl);
    }
  }

  lemma {:induction false} OtherStepInv(cfg: Config, s: State, ev: Event)
    requires Inv(cfg, s) && Enabled(cfg, s, ev)
    requires ev.RefreshBegin? || ev.RefreshLook? || ev.RefreshLoad? || ev.RefreshMain? || ev.RefreshStale?
             || ev.Tick? || ev.DropMain? || ev.DropStale?
    ensures Inv(cfg, OtherStep(cfg, s, ev))
  {
  }

  lemma {:induction false} StepInv(cfg: Config, s: State, ev: Event)
    requires Inv(cfg, s) && Enabled(cfg, s, ev)
    ensures Inv(cfg, Step(cfg, s, ev))
  {
    hide Inv, CallerStep, FlightStep, OtherStep, Enabled;
    if ev.GetMain? || ev.GetStale? || ev.Join? || ev.Cancel? {
      CallerStepInv(cfg, s, ev);
    } else if ev.LookAgain? || ev.StartLoad? || ev.EndLoad? || ev.StoreMain? || ev.StoreStale? || ev.Deliver? {
      FlightStepInv(cfg, s, ev);
    } else {
      OtherStepInv(cfg, s, ev);
    }
  }

  // ---- Whole runs --------------------------------------------------------------------------------------

  predicate IsRun(cfg: Config, s: State, run: seq<Event>)
    decreases |run|
  {
    run == [] || (Enabled(cfg, s, run[0]) && IsRun(cfg, Step(cfg, s, run[0]), run[1..]))
  }

  function Final(cfg: Config, s: State, run: seq<Event>): State
    requires IsRun(cfg, s, run)
    decreases |run|
  {
    if run == [] then s else Final(cfg, Step(cfg, s, run[0]), run[1..])
  }

  lemma {:induction false} RunInv(cfg: Config, s: State, run: seq<Event>)
    requires Inv(cfg, s) && IsRun(cfg, s, run)
    ensures Inv(cfg, Final(cfg, s, run))
    decreases |run|
  {
    hide Inv, Step, Enabled;
    if run == [] {
    } else {
      StepInv(cfg, s, run[0]);
      RunInv(cfg, Step(cfg, s, run[0]), run[1..]);
    }
  }

  /** Under any interleaving of `Fetch` callers and cancellations, no load starts while a stored value is live. */
  lemma {:induction false} NoLoadWhileLive(cfg: Config, n: nat, run: seq<Event>)
    requires !cfg.withStale && IsRun(cfg, Init(n), run)
    ensures var s := Final(cfg, Init(n), run);
            Live(s.main, s.now) ==> !Enabled(cfg, s, StartLoad)
  {
    RunInv(cfg, Init(n), run);
  }

  function LoadsStarted(run: seq<Event>): nat
  {
    if run == [] then 0 else (if run[0].StartLoad? then 1 else 0) + LoadsStarted(run[1..])
  }

  /** Nothing in the run lets a stored value go: no time passes, nothing is deleted, no load fails. */
  predicate Undisturbed(run: seq<Event>)
  {
    forall i :: 0 <= i < |run| ==> !run[i].Tick? && !run[i].DropMain? && run[i] != EndLoad(None)
  }

  /** A load is under way or its value is stored. */
  predicate Covered(s: State)
  {
    Live(s.main, s.now) || (s.flight.Some? && (s.flight.value.phase.Loading? || s.flight.value.phase.Loaded?))
  }

  lemma {:induction false} StepCovers(cfg: Config, s: State, ev: Event)
    requires !cfg.withStale && Inv(cfg, s) && Enabled(cfg, s, ev)
    requires !ev.Tick? && !ev.DropMain? && ev != EndLoad(None)
    ensures Covered(s) || ev.StartLoad? ==> Covered(Step(cfg, s, ev))
    ensures Covered(s) ==> !ev.StartLoad?
  {
  }

  lemma {:induction false} AtMostOneLoad(cfg: Config, s: State, run: seq<Event>)
    requires !cfg.withStale && Inv(cfg, s) && IsRun(cfg, s, run) && Undisturbed(run)
    ensures LoadsStarted(run) <= if Covered(s) then 0 else 1
    decreases |run|
  {
    hide Inv, Step, Enabled, Covered;
    if run == [] {
    } else {
      assert !run[0].Tick? && !run[0].DropMain? && run[0] != EndLoad(None);
      StepInv(cfg, s, run[0]);
      StepCovers(cfg, s, run[0]);
      AtMostOneLoad(cfg, Step(cfg, s, run[0]), run[1..]);
    }
  }

  /** Any number of `Fetch` callers, arriving and giving up in any order, share one load: a second one starts only if the
      value has had time to expire, was deleted, or the load failed. */
  lemma {:induction false} CallersShareOneLoad(cfg: Config, n: nat, run: seq<Event>)
    requires !cfg.withStale && IsRun(cfg, Init(n), run) && Undisturbed(run)
    ensures LoadsStarted(run) <= 1
  {
    AtMostOneLoad(cfg, Init(n), run);
  }

  /** Callers served by the same load get the same outcome, and nobody waits for a load that is no longer there. */
  lemma {:induction false} WaitersShare(cfg: Config, n: nat, run: seq<Event>, i: nat, j: nat)
    requires IsRun(cfg, Init(n), run)
    requires var s := Final(cfg, Init(n), run); i < |s.callers| && j < |s.callers|
    ensures var s := Final(cfg, Init(n), run);
            && (s.callers[i].FromFlight? && s.callers[j].FromFlight? && s.callers[i].id == s.callers[j].id ==>
                  s.callers[i].outcome == s.callers[j].outcome)
            && (s.callers[i].Waiting? ==> s.flight.Some? && s.flight.value.id == s.callers[i].flight)
  {
    RunInv(cfg, Init(n), run);
    var s := Final(cfg, Init(n), run);
    assert CallerOk(cfg, s, s.callers[i]) && CallerOk(cfg, s, s.callers[j]);
  }

  /** No caller is handed a value that had been stored for longer than the larger lifetime when it was read, provided
      the lifetimes are at least one second. */
  lemma {:induction false} NothingTooOld(cfg: Config, n: nat, run: seq<Event>, i: nat)
    requires cfg.ttl >= 1000 && IsRun(cfg, Init(n), run)
    requires i < |Final(cfg, Init(n), run).callers|
    ensures var c := Final(cfg, Init(n), run).callers[i];
            && (c.FromStore? ==> c.age * 1000 < cfg.LongTtl())
            && (c.FromFlight? && c.outcome.Got? ==> c.outcome.age * 1000 < cfg.LongTtl())
  {
    RunInv(cfg, Init(n), run);
    var s := Final(cfg, Init(n), run);
    assert CallerOk(cfg, s, s.callers[i]);
  }

  /** The step a load in progress can take next. */
  function FlightNext(s: State): Event
    requires s.flight.Some?
  {
    match s.flight.value.phase
    case Queued => LookAgain
    case Missed => StartLoad
    case Loading => EndLoad(None)
    case Loaded(_) => StoreMain
    case MainStored(_) => StoreStale
    case Finished(_) => Deliver
  }

  function Remaining(p: Phase): nat
  {
    match p
    case Queued => 6
    case Missed => 5
    case Loading => 4
    case Loaded(_) => 3
    case MainStored(_) => 2
    case Finished(_) => 1
  }

  predicate IsFlightEvent(ev: Event)
  {
    ev.LookAgain? || ev.StartLoad? || ev.EndLoad? || ev.StoreMain? || ev.StoreStale? || ev.Deliver?
  }

  /** A waiter is never stranded: its load can always move, every move brings it closer to delivering, and delivery
      answers every caller still waiting. */
  lemma {:induction false} WaitersAreServed(cfg: Config, s: State, ev: Event)
    requires Inv(cfg, s) && s.flight.Some?
    ensures Enabled(cfg, s, FlightNext(s)) && IsFlightEvent(FlightNext(s))
    ensures IsFlightEvent(ev) && Enabled(cfg, s, ev) ==>
              var t := Step(cfg, s, ev);
              if ev.Deliver? then t.flight.None? && forall i :: 0 <= i < |t.callers| ==> !t.callers[i].Waiting?
              else t.flight.Some? && t.flight.value.id == s.flight.value.id
                   && Remaining(t.flight.value.phase) < Remaining(s.flight.value.phase)
  {
    if ev.Deliver? && Enabled(cfg, s, ev) {
      forall i | 0 <= i < |s.callers|
        ensures !Step(cfg, s, ev).callers[i].Waiting?
      {
        assert CallerOk(cfg, s, s.callers[i]);
      }
    }
  }

  /** A background refresh always ends: each of its steps is possible in turn and brings it closer, whatever its load
      returns, and while one is under way no second one begins. */
  lemma {:induction false} RefreshEnds(cfg: Config, s: State, ev: Event)
    requires Enabled(cfg, s, ev)
    requires ev.RefreshLook? || ev.RefreshLoad? || ev.RefreshMain? || ev.RefreshStale? || ev.RefreshBegin?
    ensures var t := Step(cfg, s, ev);
            if ev.RefreshBegin? then t.refreshers == s.refreshers - 1 && (s.refresh.Some? ==> t.refresh == s.refresh)
            else s.refresh.Some? && (t.refresh.None? || Remaining(t.refresh.value) < Remaining(s.refresh.value))
    ensures ev == RefreshLoad(None) ==> Step(cfg, s, ev).refresh.None? && Step(cfg, s, ev).main == s.main
  {
  }

  // ---- When a load can start although a value is live ------------------------------------------

  ghost predicate Reached(cfg: Config, s: State)
  {
    exists n: nat, run: seq<Event> :: IsRun(cfg, Init(n), run) && Final(cfg, Init(n), run) == s
  }

  lemma {:induction false} RunExtend(cfg: Config, s: State, run: seq<Event>, ev: Event)
    requires IsRun(cfg, s, run) && Enabled(cfg, Final(cfg, s, run), ev)
    ensures IsRun(cfg, s, run + [ev]) && Final(cfg, s, run + [ev]) == Step(cfg, Final(cfg, s, run), ev)
    decreases |run|
  {
    hide Step, Enabled;
    var more := run + [ev];
    if run == [] {
      assert more == [ev] && more[1..] == [];
      assert IsRun(cfg, Step(cfg, s, ev), more[1..]);
    } else {
      assert more[0] == run[0] && more[1..] == run[1..] + [ev];
      RunExtend(cfg, Step(cfg, s, run[0]), run[1..], ev);
    }
  }

  lemma {:induction false} RunFront(cfg: Config, s: State, run: seq<Event>)
    requires run != [] && IsRun(cfg, s, run)
    ensures var front := run[..|run| - 1];
            && IsRun(cfg, s, front) && Enabled(cfg, Final(cfg, s, front), run[|run| - 1])
            && Final(cfg, s, run) == Step(cfg, Final(cfg, s, front), run[|run| - 1])
    decreases |run|
  {
    hide Step, Enabled;
    if |run| == 1 {
      assert run[1..] == [] && run[..0] == [];
    } else {
      var t := Step(cfg, s, run[0]);
      RunFront(cfg, t, run[1..]);
      var front := run[..|run| - 1];
      assert front[0] == run[0] && front[1..] == run[1..][..|run| - 2];
      assert run[1..][|run| - 2] == run[|run| - 1];
    }
  }

  /** The position of the second look of the load in progress, or -1. */
  function LookIndex(run: seq<Event>): (i: int)
    ensures -1 <= i < |run|
    ensures i >= 0 ==> run[i].LookAgain?
    ensures forall k :: 0 <= i < k < |run| ==> !run[k].LookAgain? && !run[k].Deliver?
  {
    if run == [] then -1
    else
      var last := |run| - 1;
      if run[last].LookAgain? then last
      else if run[last].Deliver? then -1
      else LookIndex(run[..last])
  }

  ghost predicate RefreshedAfter(run: seq<Event>, i: int)
  {
    exists j :: i < j < |run| && 0 <= j && run[j].RefreshMain?
  }

  ghost predicate RaceInv(s: State, run: seq<Event>)
  {
    MissedAndUnstored(s) ==> LookIndex(run) >= 0 && (Live(s.main, s.now) ==> RefreshedAfter(run, LookIndex(run)))
  }

  lemma {:induction false} StepRaces(cfg: Config, s: State, ev: Event)
    requires Enabled(cfg, s, ev) && MissedAndUnstored(Step(cfg, s, ev))
    ensures !ev.Deliver?
    ensures ev.LookAgain? ==> !Live(s.main, s.now) && Step(cfg, s, ev).main == s.main && Step(cfg, s, ev).now == s.now
    ensures !ev.LookAgain? ==> MissedAndUnstored(s)
    ensures Live(Step(cfg, s, ev).main, Step(cfg, s, ev).now) ==> ev.RefreshMain? || Live(s.main, s.now)
  {
  }

  lemma {:induction false} RunRaces(cfg: Config, n: nat, run: seq<Event>)
    requires IsRun(cfg, Init(n), run)
    ensures RaceInv(Final(cfg, Init(n), run), run)
    decreases |run|
  {
    hide Step, Enabled, Live, IsRun;
    if run == [] {
      assert !MissedAndUnstored(Init(n));
    } else {
      var last := |run| - 1;
      var front := run[..last];
      RunFront(cfg, Init(n), run);
      RunRaces(cfg, n, front);
      var s, t := Final(cfg, Init(n), front), Final(cfg, Init(n), run);
      if MissedAndUnstored(t) {
        StepRaces(cfg, s, run[last]);
        if Live(t.main, t.now) {
          if run[last].RefreshMain? {
            assert RefreshedAfter(run, LookIndex(run));
          } else {
            var j :| LookIndex(front) < j < |front| && 0 <= j && front[j].RefreshMain?;
            assert run[j].RefreshMain?;
          }
        }
      }
    }
  }

  /** A load can start while a stored value is live only with a stale copy, and only if the background refresh stored
      the main copy after the second look of this very load, the last look of the run. */
  lemma {:induction false} LoadWhileLiveNeedsRace(cfg: Config, n: nat, run: seq<Event>) returns (look: int, store: int)
    requires IsRun(cfg, Init(n), run)
    requires var s := Final(cfg, Init(n), run); Live(s.main, s.now) && Enabled(cfg, s, StartLoad)
    ensures cfg.withStale
    ensures 0 <= look < store < |run| && run[look] == LookAgain && run[store] == RefreshMain
    ensures forall k :: look < k < |run| ==> run[k] != LookAgain && run[k] != Deliver
  {
    RunInv(cfg, Init(n), run);
    RunRaces(cfg, n, run);
    look := LookIndex(run);
    store :| look < store < |run| && 0 <= store && run[store].RefreshMain?;
  }

  lemma {:induction false} ReachedInit(cfg: Config, n: nat)
    ensures Reached(cfg, Init(n))
  {
    assert IsRun(cfg, Init(n), []) && Final(cfg, Init(n), []) == Init(n);
  }

  lemma {:induction false} ReachedStep(cfg: Config, s: State, ev: Event) returns (t: State)
    requires Reached(cfg, s) && Enabled(cfg, s, ev)
    ensures t == Step(cfg, s, ev) && Reached(cfg, t)
  {
    hide Step, Enabled, Init;
    var n: nat, run: seq<Event> :| IsRun(cfg, Init(n), run) && Final(cfg, Init(n), run) == s;
    RunExtend(cfg, Init(n), run, ev);
    t := Step(cfg, s, ev);
    assert Final(cfg, Init(n), run + [ev]) == t;
  }

  lemma {:induction false} RaceFirst(cfg: Config) returns (s: State)
    requires cfg.withStale
    ensures Reached(cfg, s) && |s.callers| == 3 && s.callers[1] == Start && s.callers[2] == Start
    ensures s.now == 0 && s.main.None? && InPhase(s, Loaded(5)) && s.refresh.None? && s.refreshers == 0
  {
    hide Reached;
    ReachedInit(cfg, 3);
    s := ReachedStep(cfg, Init(3), GetMain(0));
    s := ReachedStep(cfg, s, GetStale(0));
    s := ReachedStep(cfg, s, Join(0));
    s := ReachedStep(cfg, s, LookAgain);
    s := ReachedStep(cfg, s, StartLoad);
    s := ReachedStep(cfg, s, EndLoad(Some(5)));
  }

  lemma {:induction false} RaceLoad(cfg: Config) returns (s: State)
    requires cfg.withStale
    ensures Reached(cfg, s) && |s.callers| == 3 && s.callers[1] == Start && s.callers[2] == Start
    ensures s.now == 0 && s.main.None? && Live(s.stale, 0) && s.flight.None? && s.refresh.None? && s.refreshers == 0
  {
    hide Reached;
    s := RaceFirst(cfg);
    s := ReachedStep(cfg, s, StoreMain);
    s := ReachedStep(cfg, s, StoreStale);
    s := ReachedStep(cfg, s, Deliver);
    s := ReachedStep(cfg, s, DropMain);
  }

  lemma {:induction false} RaceRefresh(cfg: Config) returns (s: State)
    requires cfg.withStale
    ensures Reached(cfg, s) && |s.callers| == 3 && s.callers[2] == Start
    ensures s.now == 0 && s.main.None? && s.stale.None? && s.flight.None? && s.refresh.None? && s.refreshers == 1
  {
    hide Reached;
    s := RaceLoad(cfg);
    s := ReachedStep(cfg, s, GetMain(1));
    s := ReachedStep(cfg, s, GetStale(1));
    s := ReachedStep(cfg, s, DropStale);
  }

  lemma {:induction false} RaceMiss(cfg: Config) returns (s: State)
    requires cfg.withStale
    ensures Reached(cfg, s) && InPhase(s, Missed)
    ensures s.now == 0 && s.main.None? && s.refresh.None? && s.refreshers == 1
  {
    hide Reached;
    s := RaceRefresh(cfg);
    s := ReachedStep(cfg, s, GetMain(2));
    s := ReachedStep(cfg, s, GetStale(2));
    s := ReachedStep(cfg, s, Join(2));
    s := ReachedStep(cfg, s, LookAgain);
  }

  /** With a stale copy, whatever the lifetimes, a load can indeed start although a live value is stored: the first
      caller's copy has gone, the second is served the stale one and triggers a refresh, the third misses both, and the
      refresh stores its value between the third's second look and its load. */
  lemma {:induction false} RefreshCanRaceLoad(cfg: Config) returns (s: State)
    requires cfg.withStale
    ensures Reached(cfg, s) && Live(s.main, s.now) && Enabled(cfg, s, StartLoad)
  {
    hide Reached;
    s := RaceMiss(cfg);
    s := ReachedStep(cfg, s, RefreshBegin);
    s := ReachedStep(cfg, s, RefreshLook);
    s := ReachedStep(cfg, s, RefreshLoad(Some(6)));
    s := ReachedStep(cfg, s, RefreshMain);
  }

  /** In no reachable state can a load start while a stored value is live. */
  ghost predicate NeverLoadsLive(cfg: Config)
  {
    forall s :: Reached(cfg, s) && Live(s.main, s.now) ==> !Enabled(cfg, s, StartLoad)
  }

  /** `Fetch` never loads a value it has; `FetchWithStale` can, whatever its lifetimes. */
  lemma {:induction false} NeverLoadsLiveExactly(cfg: Config)
    ensures NeverLoadsLive(cfg) <==> !cfg.withStale
  {
    if cfg.withStale {
      var s := RefreshCanRaceLoad(cfg);
    } else {
      forall s | Reached(cfg, s) && Live(s.main, s.now)
        ensures !Enabled(cfg, s, StartLoad)
      {
        var n: nat, run: seq<Event> :| IsRun(cfg, Init(n), run) && Final(cfg, Init(n), run) == s;
        NoLoadWhileLive(cfg, n, run);
      }
    }
  }
}
