/** What the callers of the cache are handed, told by the run alone: which load a value came from, when it was stored, and
    how long ago (`internal/cache/cache.go`). Nothing here looks at the state. */
module CacheHistory {
  import opened Bytes
  import opened Cache

  // ---- Reading a run -------------------------------------------------------------------------

  function Ticks(run: seq<Event>): nat
  {
    if run == [] then 0 else Ticks(run[..|run| - 1]) + if run[|run| - 1].Tick? then 1 else 0
  }

  function Delivers(run: seq<Event>): nat
  {
    if run == [] then 0 else Delivers(run[..|run| - 1]) + if run[|run| - 1].Deliver? then 1 else 0
  }

  datatype Mark = Sets | Clears | Keeps

  /** The last event that sets something, if nothing has cleared it since; else -1. */
  function LastMark(run: seq<Event>, mark: Event -> Mark): (i: int)
    ensures -1 <= i < |run|
    ensures i >= 0 ==> mark(run[i]).Sets? && forall k :: i < k < |run| ==> mark(run[k]).Keeps?
    ensures i < 0 ==> forall k :: 0 <= k < |run| && mark(run[k]).Sets? ==>
              exists m :: k < m < |run| && mark(run[m]).Clears?
  {
    if run == [] then -1
    else
      var last := |run| - 1;
      match mark(run[last])
      case Sets => last
      case Clears => -1
      case Keeps => LastMark(run[..last], mark)
  }

  function MainMark(ev: Event): Mark
  {
    if ev.StoreMain? || ev.RefreshMain? then Sets else if ev.DropMain? then Clears else Keeps
  }

  function StaleMark(ev: Event): Mark
  {
    if ev.StoreStale? || ev.RefreshStale? then Sets else if ev.DropStale? then Clears else Keeps
  }

  function LoadMark(ev: Event): Mark { if ev.EndLoad? then Sets else Keeps }

  function RefreshMark(ev: Event): Mark { if ev.RefreshLoad? then Sets else Keeps }

  /** The event that settles the outcome of the load in progress. */
  function SettleMark(ev: Event): Mark
  {
    if ev.EndLoad? || ev.LookAgain? then Sets else if ev.Deliver? then Clears else Keeps
  }

  /** What the last load, or the last refresh, brought. */
  function LastResult(run: seq<Event>, mark: Event -> Mark): Option<Value>
  {
    var i := LastMark(run, mark);
    if i >= 0 && (run[i].EndLoad? || run[i].RefreshLoad?) then run[i].result else None
  }

  /** The value event `i` stores: what the load before it brought, or the refresh before it. */
  function StoredBy(run: seq<Event>, i: nat): Option<Value>
    requires i < |run|
  {
    if run[i].StoreMain? || run[i].StoreStale? then LastResult(run[..i], LoadMark)
    else if run[i].RefreshMain? || run[i].RefreshStale? then LastResult(run[..i], RefreshMark)
    else None
  }

  datatype Copy = Copy(value: Value, age: nat)

  /** A copy stored with a lifetime below a second never goes; the others last for their whole seconds. */
  predicate Fresh(age: nat, millis: nat) { millis < 1000 || age < millis / 1000 }

  /** The copy a look finds after `run`: the one stored last, if it was not deleted and its lifetime is not over. */
  function Lookup(run: seq<Event>, mark: Event -> Mark, millis: nat): Option<Copy>
  {
    var i := LastMark(run, mark);
    if i < 0 || StoredBy(run, i).None? || Ticks(run) < Ticks(run[..i]) then None
    else
      var age := Ticks(run) - Ticks(run[..i]);
      if Fresh(age, millis) then Some(Copy(StoredBy(run, i).value, age)) else None
  }

  function LookMain(cfg: Config, run: seq<Event>): Option<Copy> { Lookup(run, MainMark, cfg.ttl) }

  function LookStale(cfg: Config, run: seq<Event>): Option<Copy> { Lookup(run, StaleMark, Max(cfg.ttl, cfg.staleTtl)) }

  /** `o` is the outcome of the load in progress: what its load function returned, or the copy its second look found. */
  predicate Settles(cfg: Config, run: seq<Event>, o: Outcome)
  {
    var i := LastMark(run, SettleMark);
    && i >= 0
    && match run[i]
       case EndLoad(result) => o == if result.Some? then Got(result.value, 0) else Failed
       case LookAgain => var l := LookMain(cfg, run[..i]); l.Some? && o == Got(l.value.value, l.value.age)
       case _ => false
  }

  // ---- The state is what the run says ------------------------------------------------------------

  predicate EntryFrom(e: Option<Entry>, run: seq<Event>, mark: Event -> Mark, millis: nat)
  {
    var i := LastMark(run, mark);
    if i < 0 then e.None?
    else StoredBy(run, i).Some? && e == Some(Stored(StoredBy(run, i).value, Ticks(run[..i]), millis))
  }

  predicate PhaseFrom(p: Phase, run: seq<Event>, mark: Event -> Mark)
  {
    && (p.Loaded? ==> LastResult(run, mark) == Some(p.value))
    && (p.MainStored? ==> LastResult(run, mark) == Some(p.value))
  }

  /** The outcome a load is bound to have, once it is settled. */
  function Bound(p: Phase): Option<Outcome>
  {
    match p
    case Loaded(v) => Some(Got(v, 0))
    case MainStored(v) => Some(Got(v, 0))
    case Finished(o) => Some(o)
    case _ => None
  }

  predicate BoundFrom(cfg: Config, f: Option<Flight>, run: seq<Event>)
  {
    f.Some? && Bound(f.value.phase).Some? ==> Settles(cfg, run, Bound(f.value.phase).value)
  }

  predicate Traced(cfg: Config, s: State, run: seq<Event>)
  {
    && s.now == Ticks(run)
    && EntryFrom(s.main, run, MainMark, cfg.ttl) && EntryFrom(s.stale, run, StaleMark, cfg.LongTtl())
    && (s.flight.Some? ==> PhaseFrom(s.flight.value.phase, run, LoadMark))
    && (s.refresh.Some? ==> PhaseFrom(s.refresh.value, run, RefreshMark))
    && BoundFrom(cfg, s.flight, run)
    && s.nextFlight == Delivers(run) + (if s.flight.Some? then 1 else 0)
    && (s.flight.Some? ==> s.flight.value.id == Delivers(run))
  }

  lemma {:induction false} Snoc(run: seq<Event>, ev: Event, mark: Event -> Mark)
    ensures var more := run + [ev];
            && more[..|run|] == run
            && Ticks(more) == Ticks(run) + (if ev.Tick? then 1 else 0)
            && Delivers(more) == Delivers(run) + (if ev.Deliver? then 1 else 0)
            && LastMark(more, mark) == match mark(ev) case Sets => |run| case Clears => -1 case Keeps => LastMark(run, mark)
  {
    assert (run + [ev])[..|run|] == run;
  }

  lemma {:induction false} ResultSnoc(run: seq<Event>, ev: Event, mark: Event -> Mark)
    ensures LastResult(run + [ev], mark) ==
            match mark(ev)
            case Sets => (if ev.EndLoad? || ev.RefreshLoad? then ev.result else None)
            case Clears => None
            case Keeps => LastResult(run, mark)
  {
    Snoc(run, ev, mark);
  }

  lemma {:induction false} TicksGrow(run: seq<Event>, i: nat)
    requires i <= |run|
    ensures Ticks(run[..i]) <= Ticks(run)
  {
    if i == |run| {
      assert run[..i] == run;
    } else {
      var front := run[..|run| - 1];
      TicksGrow(front, i);
      assert front[..i] == run[..i];
    }
  }

  /** A look at an entry finds what the run says is there. */
  lemma {:induction false} LookupIsLive(cfg: Config, s: State, e: Option<Entry>, run: seq<Event>, mark: Event -> Mark, millis: nat)
    requires s.now == Ticks(run) && EntryFrom(e, run, mark, millis)
    ensures Live(e, s.now) <==> Lookup(run, mark, millis).Some?
    ensures Live(e, s.now) ==> Lookup(run, mark, millis) == Some(Copy(e.value.value, Age(s, e.value)))
  {
    hide Ticks, LastMark, StoredBy;
    var i := LastMark(run, mark);
    if i >= 0 {
      TicksGrow(run, i);
    }
  }

  lemma {:induction false} EntryKept(e: Option<Entry>, run: seq<Event>, ev: Event, mark: Event -> Mark, millis: nat)
    requires EntryFrom(e, run, mark, millis) && mark(ev).Keeps?
    ensures EntryFrom(e, run + [ev], mark, millis)
  {
    hide Ticks, LastResult;
    Snoc(run, ev, mark);
    var i, more := LastMark(run, mark), run + [ev];
    if i >= 0 {
      assert more[..i] == run[..i];
    }
  }

  lemma {:induction false} EntrySet(run: seq<Event>, ev: Event, v: Value, now: nat, mark: Event -> Mark, millis: nat)
    requires mark(ev).Sets? && now == Ticks(run)
    requires if ev.StoreMain? || ev.StoreStale? then LastResult(run, LoadMark) == Some(v)
             else (ev.RefreshMain? || ev.RefreshStale?) && LastResult(run, RefreshMark) == Some(v)
    ensures EntryFrom(Some(Stored(v, now, millis)), run + [ev], mark, millis)
  {
    hide Ticks, LastResult;
    Snoc(run, ev, mark);
  }

  lemma {:induction false} EntryCleared(run: seq<Event>, ev: Event, mark: Event -> Mark, millis: nat)
    requires mark(ev).Clears?
    ensures EntryFrom(None, run + [ev], mark, millis)
  {
    Snoc(run, ev, mark);
  }

  lemma {:induction false} PhaseKept(p: Phase, run: seq<Event>, ev: Event, mark: Event -> Mark)
    requires PhaseFrom(p, run, mark) && mark(ev).Keeps?
    ensures PhaseFrom(p, run + [ev], mark)
  {
    ResultSnoc(run, ev, mark);
  }

  lemma {:induction false} SettlesKept(cfg: Config, run: seq<Event>, ev: Event, o: Outcome)
    requires Settles(cfg, run, o) && SettleMark(ev).Keeps?
    ensures Settles(cfg, run + [ev], o)
  {
    hide LookMain;
    Snoc(run, ev, SettleMark);
    var i, more := LastMark(run, SettleMark), run + [ev];
    assert more[..i] == run[..i];
  }

  lemma {:induction false} EntriesTraced(cfg: Config, s: State, run: seq<Event>, ev: Event)
    requires Traced(cfg, s, run) && Enabled(cfg, s, ev)
    ensures var t := Step(cfg, s, ev);
            && t.now == Ticks(run + [ev])
            && EntryFrom(t.main, run + [ev], MainMark, cfg.ttl)
            && EntryFrom(t.stale, run + [ev], StaleMark, cfg.LongTtl())
  {
    hide EntryFrom, Ticks, LastResult, Settles, Live, Config.LongTtl;
    Snoc(run, ev, MainMark);
    if ev.StoreMain? {
      EntrySet(run, ev, s.flight.value.phase.value, s.now, MainMark, cfg.ttl);
    } else if ev.RefreshMain? {
      EntrySet(run, ev, s.refresh.value.value, s.now, MainMark, cfg.ttl);
    } else if ev.DropMain? {
      EntryCleared(run, ev, MainMark, cfg.ttl);
    } else {
      EntryKept(s.main, run, ev, MainMark, cfg.ttl);
    }
    if ev.StoreStale? {
      EntrySet(run, ev, s.flight.value.phase.value, s.now, StaleMark, cfg.LongTtl());
    } else if ev.RefreshStale? {
      EntrySet(run, ev, s.refresh.value.value, s.now, StaleMark, cfg.LongTtl());
    } else if ev.DropStale? {
      EntryCleared(run, ev, StaleMark, cfg.LongTtl());
    } else {
      EntryKept(s.stale, run, ev, StaleMark, cfg.LongTtl());
    }
  }

  lemma {:induction false} PhasesTraced(cfg: Config, s: State, run: seq<Event>, ev: Event)
    requires Traced(cfg, s, run) && Enabled(cfg, s, ev)
    ensures var t := Step(cfg, s, ev);
            && (t.flight.Some? ==> PhaseFrom(t.flight.value.phase, run + [ev], LoadMark))
            && (t.refresh.Some? ==> PhaseFrom(t.refresh.value, run + [ev], RefreshMark))
            && t.nextFlight == Delivers(run + [ev]) + (if t.flight.Some? then 1 else 0)
            && (t.flight.Some? ==> t.flight.value.id == Delivers(run + [ev]))
  {
    hide EntryFrom, Ticks, Delivers, LastResult, Settles, Live, Config.LongTtl;
    Snoc(run, ev, LoadMark);
    ResultSnoc(run, ev, LoadMark);
    ResultSnoc(run, ev, RefreshMark);
  }

  lemma {:induction false} OutcomeTraced(cfg: Config, s: State, run: seq<Event>, ev: Event)
    requires Traced(cfg, s, run) && Enabled(cfg, s, ev)
    ensures BoundFrom(cfg, Step(cfg, s, ev).flight, run + [ev])
  {
    hide Ticks, Delivers, LastResult, Live, Config.LongTtl, Lookup, EntryFrom;
    var t := Step(cfg, s, ev);
    Snoc(run, ev, SettleMark);
    if t.flight.Some? && Bound(t.flight.value.phase).Some? {
      if ev.LookAgain? {
        LookupIsLive(cfg, s, s.main, run, MainMark, cfg.ttl);
      } else if !ev.EndLoad? {
        hide Settles;
        SettlesKept(cfg, run, ev, Bound(s.flight.value.phase).value);
      }
    }
  }

  lemma {:induction false} StepTraced(cfg: Config, s: State, run: seq<Event>, ev: Event)
    requires Traced(cfg, s, run) && Enabled(cfg, s, ev)
    ensures Traced(cfg, Step(cfg, s, ev), run + [ev])
  {
    hide EntryFrom, PhaseFrom, BoundFrom, Step, Enabled, Ticks, Delivers;
    EntriesTraced(cfg, s, run, ev);
    PhasesTraced(cfg, s, run, ev);
    OutcomeTraced(cfg, s, run, ev);
  }

  lemma {:induction false} RunTraced(cfg: Config, n: nat, run: seq<Event>)
    requires IsRun(cfg, Init(n), run)
    ensures Traced(cfg, Final(cfg, Init(n), run), run)
  {
    if run == [] {
    } else {
      hide Traced, Step, Enabled, IsRun, Final;
      var front := run[..|run| - 1];
      RunFront(cfg, Init(n), run);
      RunTraced(cfg, n, front);
      StepTraced(cfg, Final(cfg, Init(n), front), front, run[|run| - 1]);
      assert front + [run[|run| - 1]] == run;
    }
  }

  // ---- What each look finds -------------------------------------------------------------------------

  /** Whatever has happened, each of the four looks at the store finds a copy exactly when the run says one is there and
      its lifetime is not over, and then takes that copy with its age: a caller's look at the main copy and at the stale
      one, the load's second look, and the refresh's. Only a miss leads on towards a load. */
  lemma {:induction false} LooksAreExact(cfg: Config, n: nat, run: seq<Event>, ev: Event)
    requires IsRun(cfg, Init(n), run) && Enabled(cfg, Final(cfg, Init(n), run), ev)
    ensures var t := Step(cfg, Final(cfg, Init(n), run), ev);
            match ev
            case GetMain(c) => t.callers[c] == (match LookMain(cfg, run)
                                                case Some(copy) => FromStore(copy.value, copy.age)
                                                case None => NoMain)
            case GetStale(c) => t.callers[c] == (match LookStale(cfg, run)
                                                 case Some(copy) => FromStore(copy.value, copy.age)
                                                 case None => Joining)
            case LookAgain => t.flight.Some? && t.flight.value.phase == (match LookMain(cfg, run)
                                                                         case Some(copy) => Finished(Got(copy.value, copy.age))
                                                                         case None => Missed)
            case RefreshLook => t.refresh == (match LookMain(cfg, run) case Some(_) => None case None => Some(Loading))
            case _ => true
  {
    hide Lookup, IsRun, Final, EntryFrom, PhaseFrom, BoundFrom, Live;
    var s := Final(cfg, Init(n), run);
    RunTraced(cfg, n, run);
    LookupIsLive(cfg, s, s.main, run, MainMark, cfg.ttl);
    LookupIsLive(cfg, s, s.stale, run, StaleMark, cfg.LongTtl());
  }

  // ---- What every caller gets --------------------------------------------------------------------------

  /** What an event of a run can say about a caller or a load; loads are numbered by the deliveries before them. */
  datatype Fact =
    | MissMain(c: nat)
    | HitMain(c: nat, copy: Copy)
    | MissStale(c: nat)
    | HitStale(c: nat, copy: Copy)
    | Joins(c: nat, id: nat)
    | Brings(id: nat, outcome: Outcome)

  predicate Says(cfg: Config, before: seq<Event>, ev: Event, fact: Fact)
  {
    match fact
    case MissMain(c) => ev == GetMain(c) && LookMain(cfg, before).None?
    case HitMain(c, copy) => ev == GetMain(c) && LookMain(cfg, before) == Some(copy)
    case MissStale(c) => ev == GetStale(c) && LookStale(cfg, before).None?
    case HitStale(c, copy) => ev == GetStale(c) && LookStale(cfg, before) == Some(copy)
    case Joins(c, id) => ev == Join(c) && Delivers(before) == id
    case Brings(id, o) => ev == Deliver && Delivers(before) == id && Settles(cfg, before, o)
  }

  ghost predicate Happened(cfg: Config, run: seq<Event>, fact: Fact)
  {
    exists p :: 0 <= p < |run| && Says(cfg, run[..p], run[p], fact)
  }

  ghost predicate MissedAll(cfg: Config, run: seq<Event>, c: nat)
  {
    Happened(cfg, run, MissMain(c)) && (cfg.withStale ==> Happened(cfg, run, MissStale(c)))
  }

  /** How the caller came to where it is. */
  ghost predicate Explained(cfg: Config, run: seq<Event>, c: nat, a: Caller)
  {
    match a
    case Start => true
    case FromStore(v, age) =>
      || Happened(cfg, run, HitMain(c, Copy(v, age)))
      || (cfg.withStale && Happened(cfg, run, MissMain(c)) && Happened(cfg, run, HitStale(c, Copy(v, age))))
    case NoMain => Happened(cfg, run, MissMain(c))
    case Joining => MissedAll(cfg, run, c)
    case Waiting(id) => MissedAll(cfg, run, c) && Happened(cfg, run, Joins(c, id))
    case FromFlight(id, o) =>
      MissedAll(cfg, run, c) && Happened(cfg, run, Joins(c, id)) && Happened(cfg, run, Brings(id, o))
    case Cancelled => MissedAll(cfg, run, c)
  }

  lemma {:induction false} HappenedStays(cfg: Config, run: seq<Event>, ev: Event)
    ensures forall fact :: Happened(cfg, run, fact) ==> Happened(cfg, run + [ev], fact)
    ensures forall fact :: Says(cfg, run, ev, fact) ==> Happened(cfg, run + [ev], fact)
  {
    hide Says;
    var more := run + [ev];
    assert more[..|run|] == run && more[|run|] == ev;
    forall fact | Happened(cfg, run, fact)
      ensures Happened(cfg, more, fact)
    {
      var p :| 0 <= p < |run| && Says(cfg, run[..p], run[p], fact);
      assert more[..p] == run[..p] && more[p] == run[p];
    }
    forall fact | Says(cfg, run, ev, fact)
      ensures Happened(cfg, more, fact)
    {
      assert Says(cfg, more[..|run|], more[|run|], fact);
    }
  }

  predicate CallerEvent(ev: Event, c: nat) { ev == GetMain(c) || ev == GetStale(c) || ev == Join(c) || ev == Cancel(c) }

  /** A step that is not the caller's own leaves it alone, unless it delivers the load the caller waits for. */
  lemma {:induction false} OthersKeep(cfg: Config, s: State, ev: Event, c: nat)
    requires Enabled(cfg, s, ev) && c < |s.callers| && !CallerEvent(ev, c)
    ensures ev.Deliver? ==> s.flight.Some? && s.flight.value.phase.Finished?
    ensures var t := Step(cfg, s, ev);
            && |t.callers| == |s.callers|
            && t.callers[c] == if ev.Deliver? && s.callers[c] == Waiting(s.flight.value.id)
                               then FromFlight(s.flight.value.id, s.flight.value.phase.outcome) else s.callers[c]
  {
  }

  lemma {:induction false} OwnStep(cfg: Config, s: State, ev: Event, c: nat)
    requires Enabled(cfg, s, ev) && c < |s.callers| && CallerEvent(ev, c)
    ensures var t := Step(cfg, s, ev);
            && |t.callers| == |s.callers|
            && (ev.GetMain? ==> s.callers[c].Start?)
            && (ev.GetStale? ==> s.callers[c].NoMain? && cfg.withStale)
            && (ev.Join? ==> (s.callers[c].Joining? || (s.callers[c].NoMain? && !cfg.withStale))
                             && t.callers[c] == Waiting(if s.flight.Some? then s.flight.value.id else s.nextFlight))
            && (ev.Cancel? ==> s.callers[c].Waiting? && t.callers[c] == Cancelled)
  {
  }

  lemma {:induction false} StepExplains(cfg: Config, n: nat, run: seq<Event>, ev: Event, c: nat)
    requires IsRun(cfg, Init(n), run) && Enabled(cfg, Final(cfg, Init(n), run), ev)
    requires var s := Final(cfg, Init(n), run); c < |s.callers| && Explained(cfg, run, c, s.callers[c])
    ensures var t := Step(cfg, Final(cfg, Init(n), run), ev);
            c < |t.callers| && Explained(cfg, run + [ev], c, t.callers[c])
  {
    hide IsRun, Final, Step, Enabled, Happened, LookMain, LookStale, Delivers, Settles, EntryFrom, PhaseFrom, Init;
    var s := Final(cfg, Init(n), run);
    HappenedStays(cfg, run, ev);
    RunTraced(cfg, n, run);
    if CallerEvent(ev, c) {
      OwnStep(cfg, s, ev, c);
      LooksAreExact(cfg, n, run, ev);
      var t := Step(cfg, s, ev);
      match ev {
        case GetMain(_) =>
          var l := LookMain(cfg, run);
          assert l.Some? ==> Says(cfg, run, ev, HitMain(c, l.value));
          assert l.None? ==> Says(cfg, run, ev, MissMain(c));
        case GetStale(_) =>
          var l := LookStale(cfg, run);
          assert l.Some? ==> Says(cfg, run, ev, HitStale(c, l.value));
          assert l.None? ==> Says(cfg, run, ev, MissStale(c));
        case Join(_) =>
          assert Says(cfg, run, ev, Joins(c, Delivers(run)));
        case _ =>
      }
    } else {
      OthersKeep(cfg, s, ev, c);
      if ev.Deliver? && s.callers[c] == Waiting(s.flight.value.id) {
        assert Says(cfg, run, ev, Brings(Delivers(run), s.flight.value.phase.outcome));
      }
    }
  }

  lemma {:induction false} StartExplained(cfg: Config, c: nat)
    ensures Explained(cfg, [], c, Start)
  {
  }

  /** Every value a caller is handed comes from a load of the run. A hit gets the value stored last before it, with the
      time since then as its age, and only while its lifetime lasts; a caller that misses joins the load in progress, and
      gets what that load's function returned, or a failure if it failed, or the copy the load's second look found. */
  lemma {:induction false} EveryAnswerIsExplained(cfg: Config, n: nat, run: seq<Event>, c: nat)
    requires IsRun(cfg, Init(n), run) && c < n
    ensures c < |Final(cfg, Init(n), run).callers|
    ensures Explained(cfg, run, c, Final(cfg, Init(n), run).callers[c])
  {
    hide Explained, Step, Enabled;
    if run == [] {
      StartExplained(cfg, c);
    } else {
      hide IsRun, Final, Init;
      var front := run[..|run| - 1];
      RunFront(cfg, Init(n), run);
      EveryAnswerIsExplained(cfg, n, front, c);
      StepExplains(cfg, n, front, run[|run| - 1], c);
      assert front + [run[|run| - 1]] == run;
    }
  }

  lemma {:induction false} LookupSource(run: seq<Event>, mark: Event -> Mark, millis: nat) returns (p: nat)
    requires Lookup(run, mark, millis).Some?
    ensures var v := Lookup(run, mark, millis).value.value;
            p < |run| && (run[p] == EndLoad(Some(v)) || run[p] == RefreshLoad(Some(v)))
  {
    hide Ticks;
    var i := LastMark(run, mark);
    p := LastMark(run[..i], if run[i].StoreMain? || run[i].StoreStale? then LoadMark else RefreshMark);
  }

  lemma {:induction false} OutcomeSource(cfg: Config, run: seq<Event>, o: Outcome) returns (p: nat)
    requires Settles(cfg, run, o) && o.Got?
    ensures p < |run| && (run[p] == EndLoad(Some(o.value)) || run[p] == RefreshLoad(Some(o.value)))
  {
    hide Lookup;
    var i := LastMark(run, SettleMark);
    if run[i].LookAgain? {
      p := LookupSource(run[..i], MainMark, cfg.ttl);
    } else {
      p := i;
    }
  }

  /** In particular every value handed out is the result of a load or a refresh of the run. */
  lemma {:induction false} ValuesComeFromLoads(cfg: Config, n: nat, run: seq<Event>, c: nat) returns (p: nat)
    requires IsRun(cfg, Init(n), run) && c < n && c < |Final(cfg, Init(n), run).callers|
    requires var a := Final(cfg, Init(n), run).callers[c]; a.FromStore? || (a.FromFlight? && a.outcome.Got?)
    ensures var a := Final(cfg, Init(n), run).callers[c];
            var v := if a.FromStore? then a.value else a.outcome.value;
            p < |run| && (run[p] == EndLoad(Some(v)) || run[p] == RefreshLoad(Some(v)))
  {
    hide IsRun, Final, Init, Lookup, Settles;
    EveryAnswerIsExplained(cfg, n, run, c);
    var a := Final(cfg, Init(n), run).callers[c];
    if a.FromFlight? {
      var q :| 0 <= q < |run| && Says(cfg, run[..q], run[q], Brings(a.id, a.outcome));
      p := OutcomeSource(cfg, run[..q], a.outcome);
    } else if Happened(cfg, run, HitMain(c, Copy(a.value, a.age))) {
      var q :| 0 <= q < |run| && Says(cfg, run[..q], run[q], HitMain(c, Copy(a.value, a.age)));
      p := LookupSource(run[..q], MainMark, cfg.ttl);
    } else {
      var q :| 0 <= q < |run| && Says(cfg, run[..q], run[q], HitStale(c, Copy(a.value, a.age)));
      p := LookupSource(run[..q], StaleMark, Max(cfg.ttl, cfg.staleTtl));
    }
  }
}
