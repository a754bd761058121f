/** The fill goroutine of `tgMultiReader` as a state machine: batches of concurrent fetches that may finish in any
    order, an in-order hand-over through a bounded channel, and cancellation
    (`internal/reader/tg_reader.go`, `fillBuffer` and `fillBatch`). */
module Pipe {
  import opened Arith
  import opened Bytes
  import opened ChunkPlan

  /** What does not change while the stream lives. A faulty environment may fail a fetch or cancel the
      stream at any moment; a fault-free one does neither. */
  datatype Env = Env(source: Bytes, plan: Plan, concurrency: nat, capacity: nat, faulty: bool)
  {
    predicate Valid() { plan.Valid() && plan.end < |source| && concurrency >= 1 }

    /** The bytes of the range that each request contributes. */
    function Pieces(): seq<Bytes>
      requires Valid()
    {
      seq(plan.totalParts, k requires 0 <= k < plan.totalParts =>
        (PiecesTile(plan, k); source[plan.Lo(k)..plan.Lo(k + 1)]))
    }

    /** Slicing the reply for `offset` as request `part` stays within it (otherwise the slice panics). */
    predicate InBounds(offset: int, part: nat)
    {
      && 0 <= offset <= |source|
      && var n := Min(offset + plan.chunkSize, |source|) - offset;
         if plan.totalParts == 1 then plan.leftCut <= plan.rightCut <= n
         else if part == 0 then plan.leftCut <= n
         else part + 1 == plan.totalParts ==> plan.rightCut <= n
    }

    /** The reply to one request, with the first and last requests cut to the range. */
    function Fetch(offset: int, part: nat): Bytes
      requires InBounds(offset, part)
    {
      var chunk := source[offset..Min(offset + plan.chunkSize, |source|)];
      if plan.totalParts == 1 then chunk[plan.leftCut..plan.rightCut]
      else if part == 0 then chunk[plan.leftCut..]
      else if part + 1 == plan.totalParts then chunk[..plan.rightCut]
      else chunk
    }

    function BatchSize(currentPart: nat): int { Min(concurrency, plan.totalParts - currentPart) }
  }

  datatype Slot = Running | Got(bytes: Bytes) | Failed

  datatype Phase =
    | Idle
    | Fetching(slots: seq<Slot>)
    | Sending(queue: seq<Bytes>, batch: nat)
    | Stopped  // the goroutine has returned and closed the channel

  /** `sent` counts the buffers put in the channel so far; `waiting` says the reader is blocked on it. */
  datatype Pipe = Pipe(offset: int, currentPart: nat, phase: Phase, chan: seq<Bytes>, sent: nat,
                       cancelled: bool, waiting: bool)

  datatype Event =
    | StartBatch
    | Fetched(i: nat)
    | FetchFailed(i: nat)
    | Settle
    | Send
    | AbortSend
    | EndBatch
    | Finish
    | Cancel
    | BeginWait  // the reader blocks on the channel
    | EndWait
    | Receive

  /** The steps of the reading side; all others are the goroutine's or the world's. */
  predicate IsReader(ev: Event) { ev.BeginWait? || ev.EndWait? || ev.Receive? }

  function Start(env: Env): Pipe
  {
    Pipe(env.plan.base, 0, Idle, [], 0, false, false)
  }

  predicate AnyFailed(slots: seq<Slot>) { exists i :: 0 <= i < |slots| && slots[i].Failed? }

  predicate AllGot(slots: seq<Slot>) { forall i :: 0 <= i < |slots| ==> slots[i].Got? }

  predicate Settled(slots: seq<Slot>) { forall i :: 0 <= i < |slots| ==> !slots[i].Running? }

  function Collected(slots: seq<Slot>): seq<Bytes>
    requires AllGot(slots)
  {
    seq(|slots|, i requires 0 <= i < |slots| => slots[i].bytes)
  }

  predicate Enabled(env: Env, s: Pipe, ev: Event)
  {
    match ev
    case StartBatch => s.phase.Idle? && s.currentPart < env.plan.totalParts
    case Fetched(i) =>
      && s.phase.Fetching? && i < |s.phase.slots| && s.phase.slots[i].Running?
      && env.InBounds(s.offset + i * env.plan.chunkSize, s.currentPart + i)
    case FetchFailed(i) =>
      && s.phase.Fetching? && i < |s.phase.slots| && s.phase.slots[i].Running?
      && (env.faulty || s.cancelled || AnyFailed(s.phase.slots))
    case Settle => s.phase.Fetching? && Settled(s.phase.slots)
    case Send =>
      && s.phase.Sending? && s.phase.queue != []
      && (|s.chan| < env.capacity || (s.waiting && s.chan == []))
    case AbortSend => s.phase.Sending? && s.phase.queue != [] && s.cancelled
    case EndBatch => s.phase.Sending? && s.phase.queue == []
    case Finish => s.phase.Idle? && s.currentPart >= env.plan.totalParts
    case Cancel => env.faulty && !s.cancelled
    case BeginWait => !s.waiting
    case EndWait => s.waiting && (s.chan != [] || s.phase.Stopped? || s.cancelled)
    case Receive => s.chan != []
  }

  function Step(env: Env, s: Pipe, ev: Event): Pipe
    requires Enabled(env, s, ev)
  {
    match ev
    case StartBatch =>
      s.(phase := Fetching(seq(Max(env.BatchSize(s.currentPart), 0), _ => Running)))
    case Fetched(i) =>
      var bytes := env.Fetch(s.offset + i * env.plan.chunkSize, s.currentPart + i);
      s.(phase := Fetching(s.phase.slots[i := Got(bytes)]))
    case FetchFailed(i) =>
      s.(phase := Fetching(s.phase.slots[i := Failed]))
    case Settle =>
      if AllGot(s.phase.slots) then s.(phase := Sending(Collected(s.phase.slots), |s.phase.slots|))
      else s.(phase := Stopped, cancelled := true)
    case Send =>
      s.(phase := s.phase.(queue := s.phase.queue[1..]), chan := s.chan + [s.phase.queue[0]], sent := s.sent + 1)
    case AbortSend => s.(phase := Stopped)
    case EndBatch =>
      s.(phase := Idle, currentPart := s.currentPart + s.phase.batch,
         offset := s.offset + env.plan.chunkSize * s.phase.batch)
    case Finish => s.(phase := Stopped)
    case Cancel => s.(cancelled := true)
    case BeginWait => s.(waiting := true)
    case EndWait => s.(waiting := false)
    case Receive => s.(chan := s.chan[1..])
  }

  /** Each request, wherever it is issued, yields its piece, and cutting the reply never panics. */
  predicate Serves(env: Env, pieces: seq<Bytes>)
  {
    && |pieces| == env.plan.totalParts && env.concurrency >= 1
    && forall k: nat {:trigger env.plan.Offset(k)} :: k < |pieces| ==>
         env.InBounds(env.plan.Offset(k), k) && env.Fetch(env.plan.Offset(k), k) == pieces[k]
  }

  /** The channel and the batch in hand always hold consecutive pieces of the range, in order; only a
      cancelled stream stops before the last piece. */
  predicate Inv(env: Env, pieces: seq<Bytes>, s: Pipe)
  {
    var total := |pieces|;
    && total == env.plan.totalParts
    && s.currentPart <= total && s.offset == env.plan.Offset(s.currentPart)
    && |s.chan| <= s.sent <= total
    && s.chan == pieces[s.sent - |s.chan|..s.sent]
    && (!env.faulty ==> !s.cancelled)
    && match s.phase
       case Idle => s.sent == s.currentPart
       case Fetching(slots) =>
         && s.currentPart < total && s.sent == s.currentPart && |slots| == env.BatchSize(s.currentPart)
         && (forall i :: 0 <= i < |slots| && slots[i].Got? ==> slots[i].bytes == pieces[s.currentPart + i])
         && (!env.faulty ==> !AnyFailed(slots))
       case Sending(queue, batch) =>
         && s.currentPart < total && batch == env.BatchSize(s.currentPart)
         && |queue| <= batch && s.sent == s.currentPart + batch - |queue|
         && queue == pieces[s.sent..s.sent + |queue|]
       case Stopped => s.cancelled || s.sent == total
  }

  /** Number of pieces that have left the channel. */
  function Taken(s: Pipe): int { s.sent - |s.chan| }

  lemma {:induction false} StartInv(env: Env, pieces: seq<Bytes>)
    requires |pieces| == env.plan.totalParts
    ensures Inv(env, pieces, Start(env)) && Taken(Start(env)) == 0
  {
  }

  lemma {:induction false} CutSlice(env: Env, o: nat, part: nat, lo: nat, hi: nat)
    requires lo == o + (if part == 0 then env.plan.leftCut else 0)
    requires hi == o + (if part + 1 == env.plan.totalParts then env.plan.rightCut else env.plan.chunkSize)
    requires lo <= hi <= |env.source| && env.plan.rightCut <= env.plan.chunkSize
    requires part < env.plan.totalParts
    ensures env.InBounds(o, part) && env.Fetch(o, part) == env.source[lo..hi]
  {
    var top := Min(o + env.plan.chunkSize, |env.source|);
    var chunk := env.source[o..top];
    SubSlice(env.source, o, top, lo - o, hi - o);
    assert chunk[lo - o..] == chunk[lo - o..|chunk|] && chunk[..hi - o] == chunk[0..hi - o];
  }

  /** Cutting each aligned reply leaves exactly the bytes of the range that fall in it. */
  lemma {:induction false} PiecesServed(env: Env)
    requires env.Valid()
    ensures Serves(env, env.Pieces()) && |env.Pieces()| == env.plan.totalParts
    ensures forall k :: 0 <= k < |env.Pieces()| ==> env.Pieces()[k] != []
  {
    forall k: nat | k < env.plan.totalParts
      ensures env.InBounds(env.plan.Offset(k), k) && env.Fetch(env.plan.Offset(k), k) == env.Pieces()[k]
      ensures env.Pieces()[k] != []
    {
      PiecesTile(env.plan, k);
      CutSlice(env, env.plan.Offset(k), k, env.plan.Lo(k), env.plan.Lo(k + 1));
    }
  }

  /** The pieces from the `k`-th on, concatenated, are the rest of the range. */
  lemma {:induction false} FlatPieces(env: Env, k: nat)
    requires env.Valid() && k <= env.plan.totalParts
    ensures env.plan.Lo(k) <= env.plan.end + 1
    ensures Flat(env.Pieces()[k..]) == env.source[env.plan.Lo(k)..env.plan.end + 1]
    decreases env.plan.totalParts - k
  {
    if k == env.plan.totalParts {
    } else {
      FlatPieces(env, k + 1);
      PiecesTile(env.plan, k);
      var lo, hi, end := env.plan.Lo(k), env.plan.Lo(k + 1), env.plan.end + 1;
      assert env.Pieces()[k..][1..] == env.Pieces()[k + 1..];
      assert env.Pieces()[k..][0] == env.source[lo..hi];
      assert env.source[lo..hi] + env.source[hi..end] == env.source[lo..end];
    }
  }

  lemma {:induction false} SlotOffset(plan: Plan, currentPart: nat, i: nat)
    ensures plan.Offset(currentPart) + i * plan.chunkSize == plan.Offset(currentPart + i)
    ensures plan.Offset(currentPart) + plan.chunkSize * i == plan.Offset(currentPart + i)
  {
    MulDiff(currentPart + i, i, plan.chunkSize);
  }

  /** A fetch of the running batch never slices out of bounds, and brings the piece of its slot. */
  lemma {:induction false} FetchNeverPanics(env: Env, pieces: seq<Bytes>, s: Pipe, i: nat)
    requires Serves(env, pieces) && Inv(env, pieces, s) && s.phase.Fetching? && i < |s.phase.slots|
    ensures env.InBounds(s.offset + i * env.plan.chunkSize, s.currentPart + i)
    ensures env.Fetch(s.offset + i * env.plan.chunkSize, s.currentPart + i) == pieces[s.currentPart + i]
  {
    hide Env.InBounds, Env.Fetch, Plan.Offset;
    SlotOffset(env.plan, s.currentPart, i);
  }

  lemma {:induction false} SettleInv(env: Env, pieces: seq<Bytes>, s: Pipe)
    requires Serves(env, pieces) && Inv(env, pieces, s) && Enabled(env, s, Settle)
    ensures Inv(env, pieces, Step(env, s, Settle))
  {
    if !AllGot(s.phase.slots) {
      var i :| 0 <= i < |s.phase.slots| && !s.phase.slots[i].Got?;
      assert s.phase.slots[i].Failed?;
    }
  }

  lemma {:induction false} FetchInv(env: Env, pieces: seq<Bytes>, s: Pipe, ev: Event)
    requires Serves(env, pieces) && Inv(env, pieces, s) && Enabled(env, s, ev)
    requires ev.Fetched? || ev.FetchFailed?
    ensures Inv(env, pieces, Step(env, s, ev))
  {
    if ev.Fetched? {
      FetchNeverPanics(env, pieces, s, ev.i);
    }
  }

  lemma {:induction false} BatchInv(env: Env, pieces: seq<Bytes>, s: Pipe, ev: Event)
    requires Serves(env, pieces) && Inv(env, pieces, s) && Enabled(env, s, ev)
    requires ev.StartBatch? || ev.EndBatch? || ev.AbortSend? || ev.Finish? || ev.Cancel?
    ensures Inv(env, pieces, Step(env, s, ev))
  {
    hide Serves, Env.InBounds, Env.Fetch, Plan.Offset;
    if ev.EndBatch? {
      SlotOffset(env.plan, s.currentPart, s.phase.batch);
    }
  }

  lemma {:induction false} SendInv(env: Env, pieces: seq<Bytes>, s: Pipe)
    requires Inv(env, pieces, s) && Enabled(env, s, Send)
    ensures Inv(env, pieces, Step(env, s, Send))
  {
    hide Plan.Offset, AnyFailed, Env.InBounds;
    var n := |s.phase.queue|;
    assert s.phase.queue[0] == pieces[s.sent];
    assert s.phase.queue[1..] == pieces[s.sent + 1..s.sent + n];
    assert s.chan + [pieces[s.sent]] == pieces[s.sent - |s.chan|..s.sent + 1];
  }

  lemma {:induction false} ReaderInv(env: Env, pieces: seq<Bytes>, s: Pipe, ev: Event)
    requires Inv(env, pieces, s) && Enabled(env, s, ev) && IsReader(ev)
    ensures Inv(env, pieces, Step(env, s, ev))
  {
    hide Plan.Offset, AnyFailed, Env.InBounds;
    if ev.Receive? {
      assert s.chan[1..] == pieces[s.sent - |s.chan| + 1..s.sent];
    }
  }

  /** Every step keeps the invariant. */
  lemma {:induction false} StepInv(env: Env, pieces: seq<Bytes>, s: Pipe, ev: Event)
    requires Serves(env, pieces) && Inv(env, pieces, s) && Enabled(env, s, ev)
    ensures Inv(env, pieces, Step(env, s, ev))
  {
    hide Inv, Step, Enabled, Serves;
    if ev.Fetched? || ev.FetchFailed? {
      FetchInv(env, pieces, s, ev);
    } else if ev.Settle? {
      SettleInv(env, pieces, s);
    } else if ev.Send? {
      SendInv(env, pieces, s);
    } else if IsReader(ev) {
      ReaderInv(env, pieces, s, ev);
    } else {
      BatchInv(env, pieces, s, ev);
    }
  }

  // ---- Progress --------------------------------------------------------------

  function CountRunning(slots: seq<Slot>): nat
  {
    if slots == [] then 0 else (if slots[0].Running? then 1 else 0) + CountRunning(slots[1..])
  }

  lemma {:induction false} CountUpdate(slots: seq<Slot>, i: nat, v: Slot)
    requires i < |slots| && slots[i].Running? && !v.Running?
    ensures CountRunning(slots[i := v]) == CountRunning(slots) - 1
  {
    if i > 0 {
      CountUpdate(slots[1..], i - 1, v);
      assert slots[i := v][1..] == slots[1..][i - 1 := v];
    } else {
      assert slots[0 := v][1..] == slots[1..];
    }
  }

  function Rank(p: Phase): nat
  {
    match p
    case Idle => 3
    case Fetching(_) => 2
    case Sending(_, _) => 1
    case Stopped => 0
  }

  function Work(p: Phase): nat
  {
    match p
    case Fetching(slots) => CountRunning(slots)
    case Sending(queue, _) => |queue|
    case _ => 0
  }

  /** `t` is strictly below `s` in the order (not yet cancelled, parts left, phase, work left). */
  predicate Below(env: Env, t: Pipe, s: Pipe)
  {
    || (t.cancelled && !s.cancelled)
    || (t.cancelled == s.cancelled &&
        (|| env.plan.totalParts - t.currentPart < env.plan.totalParts - s.currentPart
         || (t.currentPart == s.currentPart &&
             (|| Rank(t.phase) < Rank(s.phase)
              || (Rank(t.phase) == Rank(s.phase) && Work(t.phase) < Work(s.phase))))))
  }

  lemma {:induction false} FetchDescends(env: Env, s: Pipe, ev: Event)
    requires Enabled(env, s, ev) && (ev.Fetched? || ev.FetchFailed?)
    ensures Below(env, Step(env, s, ev), s)
  {
    hide Env.InBounds, Env.Fetch, AnyFailed;
    if ev.Fetched? {
      CountUpdate(s.phase.slots, ev.i, Got(env.Fetch(s.offset + ev.i * env.plan.chunkSize, s.currentPart + ev.i)));
    } else {
      CountUpdate(s.phase.slots, ev.i, Failed);
    }
  }

  /** Every step of the goroutine brings it closer to its end. */
  lemma {:induction false} StepDescends(env: Env, pieces: seq<Bytes>, s: Pipe, ev: Event)
    requires Serves(env, pieces) && Inv(env, pieces, s) && Enabled(env, s, ev) && !IsReader(ev)
    ensures Below(env, Step(env, s, ev), s)
  {
    if ev.Fetched? || ev.FetchFailed? {
      FetchDescends(env, s, ev);
    } else if ev.EndBatch? {
      assert s.phase.batch >= 1;
    }
  }

  function FirstRunning(slots: seq<Slot>): (i: nat)
    requires !Settled(slots)
    ensures i < |slots| && slots[i].Running?
  {
    if slots[0].Running? then 0 else 1 + FirstRunning(slots[1..])
  }

  /** A step the goroutine can take while the reader waits on an empty channel. */
  function NextEvent(s: Pipe, env: Env): Event
  {
    match s.phase
    case Idle => if s.currentPart < env.plan.totalParts then StartBatch else Finish
    case Fetching(slots) => if Settled(slots) then Settle else Fetched(FirstRunning(slots))
    case Sending(queue, _) => if queue == [] then EndBatch else Send
    case Stopped => Receive
  }

  lemma {:induction false} RunningCanFinish(env: Env, pieces: seq<Bytes>, s: Pipe)
    requires Serves(env, pieces) && Inv(env, pieces, s) && s.phase.Fetching? && !Settled(s.phase.slots)
    ensures Enabled(env, s, Fetched(FirstRunning(s.phase.slots)))
  {
    hide Inv, Serves, Env.InBounds, Env.Fetch;
    FetchNeverPanics(env, pieces, s, FirstRunning(s.phase.slots));
  }

  /** The reader never waits for ever: while the channel is empty and not closed, the goroutine can move. */
  lemma {:induction false} NeverStuck(env: Env, pieces: seq<Bytes>, s: Pipe)
    requires Serves(env, pieces) && Inv(env, pieces, s) && s.waiting && s.chan == [] && !s.phase.Stopped?
    ensures Enabled(env, s, NextEvent(s, env)) && !IsReader(NextEvent(s, env))
  {
    hide Inv, Serves;
    if s.phase.Fetching? && !Settled(s.phase.slots) {
      RunningCanFinish(env, pieces, s);
    }
  }

  // ---- Whole runs --------------------------------------------------------------

  /** `run` is a sequence of enabled steps from `s`. */
  predicate IsRun(env: Env, s: Pipe, run: seq<Event>)
    decreases |run|
  {
    run == [] || (Enabled(env, s, run[0]) && IsRun(env, Step(env, s, run[0]), run[1..]))
  }

  function Final(env: Env, s: Pipe, run: seq<Event>): Pipe
    requires IsRun(env, s, run)
    decreases |run|
  {
    if run == [] then s else Final(env, Step(env, s, run[0]), run[1..])
  }

  /** The bytes taken from the channel along a run. */
  function Received(env: Env, s: Pipe, run: seq<Event>): Bytes
    requires IsRun(env, s, run)
    decreases |run|
  {
    if run == [] then []
    else (if run[0].Receive? then s.chan[0] else []) + Received(env, Step(env, s, run[0]), run[1..])
  }

  /** Only a receive takes a piece, and it takes the next one. */
  lemma {:induction false} StepTakes(env: Env, pieces: seq<Bytes>, s: Pipe, ev: Event)
    requires Serves(env, pieces) && Inv(env, pieces, s) && Enabled(env, s, ev)
    ensures Taken(Step(env, s, ev)) == Taken(s) + (if ev.Receive? then 1 else 0)
    ensures ev.Receive? ==> s.chan[0] == pieces[Taken(s)]
    ensures !IsReader(ev) || ev.Receive? ==> Step(env, s, ev).waiting == s.waiting
  {
  }

  lemma {:induction false} RunInv(env: Env, pieces: seq<Bytes>, s: Pipe, run: seq<Event>)
    requires Serves(env, pieces) && Inv(env, pieces, s) && IsRun(env, s, run)
    ensures Inv(env, pieces, Final(env, s, run))
    decreases |run|
  {
    if run == [] {
    } else {
      StepInv(env, pieces, s, run[0]);
      RunInv(env, pieces, Step(env, s, run[0]), run[1..]);
    }
  }

  lemma {:induction false} FlatSplit(pieces: seq<Bytes>, a: nat, b: nat)
    requires a <= b <= |pieces|
    ensures a < b ==> Flat(pieces[a..b]) == pieces[a] + Flat(pieces[a + 1..b])
  {
    if a < b {
      assert pieces[a..b][1..] == pieces[a + 1..b];
    }
  }

  lemma {:induction false} RunFrom(env: Env, pieces: seq<Bytes>, s: Pipe, run: seq<Event>)
    requires Serves(env, pieces) && Inv(env, pieces, s) && IsRun(env, s, run)
    ensures 0 <= Taken(s) <= Taken(Final(env, s, run)) <= |pieces|
    ensures Received(env, s, run) == Flat(pieces[Taken(s)..Taken(Final(env, s, run))])
    decreases |run|
  {
    if run == [] {
    } else {
      var ev := run[0];
      StepInv(env, pieces, s, ev);
      StepTakes(env, pieces, s, ev);
      RunFrom(env, pieces, Step(env, s, ev), run[1..]);
      FlatSplit(pieces, Taken(s), Taken(Final(env, s, run)));
    }
  }

  /** A stream that stopped uncancelled and was emptied has handed over every piece. */
  lemma {:induction false} StoppedIsComplete(env: Env, pieces: seq<Bytes>, s: Pipe)
    requires Inv(env, pieces, s)
    ensures 0 <= Taken(s) <= |pieces| && s.currentPart <= env.plan.totalParts
    ensures s.phase.Stopped? && !s.cancelled && s.chan == [] ==> Taken(s) == |pieces|
    ensures !env.faulty ==> !s.cancelled
  {
  }

  /** For every completion order, cancellation and interleaving: what came out of the channel is a prefix of
      the range; and once the goroutine has stopped uncancelled and the channel is empty, it is the whole range. */
  lemma {:induction false} EveryRunDeliversPrefix(env: Env, run: seq<Event>)
    requires env.Valid() && IsRun(env, Start(env), run)
    ensures var t := Final(env, Start(env), run);
            var out := Received(env, Start(env), run);
            && out <= env.source[env.plan.start..env.plan.end + 1]
            && (t.phase.Stopped? && !t.cancelled && t.chan == [] ==>
                  out == env.source[env.plan.start..env.plan.end + 1])
            && (!env.faulty ==> !t.cancelled)
  {
    hide Step, Enabled, Inv, Serves, Env.Pieces;
    var pieces := env.Pieces();
    PiecesServed(env);
    StartInv(env, pieces);
    RunInv(env, pieces, Start(env), run);
    RunFrom(env, pieces, Start(env), run);
    FlatPieces(env, 0);
    var n := Taken(Final(env, Start(env), run));
    StoppedIsComplete(env, pieces, Final(env, Start(env), run));
    FlatAppend(pieces[..n], pieces[n..]);
    assert pieces[..n] + pieces[n..] == pieces[0..];
    assert pieces[0..n] == pieces[..n] && pieces[..|pieces|] == pieces[0..];
  }

  // ---- Every run can be completed -----------------------------------------------------

  /** Nothing has failed so far. */
  predicate Healthy(s: Pipe)
  {
    !s.cancelled && (s.phase.Fetching? ==> !AnyFailed(s.phase.slots))
  }

  lemma {:induction false} NextIsHealthy(env: Env, s: Pipe)
    requires Healthy(s) && Enabled(env, s, NextEvent(s, env)) && !IsReader(NextEvent(s, env))
    ensures Healthy(Step(env, s, NextEvent(s, env)))
  {
    hide Env.InBounds, Env.Fetch;
    if s.phase.Fetching? && Settled(s.phase.slots) {
      assert forall i :: 0 <= i < |s.phase.slots| ==> !s.phase.slots[i].Failed? && !s.phase.slots[i].Running?;
    }
  }

  /** The next step towards the end: take what has arrived, otherwise wait and let the goroutine move. */
  function Towards(s: Pipe, env: Env): Event
  {
    if s.chan != [] then Receive else if !s.waiting then BeginWait else NextEvent(s, env)
  }

  predicate Emptied(s: Pipe) { s.phase.Stopped? && !s.cancelled && s.chan == [] }

  lemma {:induction false} TowardsEnd(env: Env, pieces: seq<Bytes>, s: Pipe)
    requires Serves(env, pieces) && Inv(env, pieces, s) && Healthy(s) && !Emptied(s)
    ensures Enabled(env, s, Towards(s, env)) && Healthy(Step(env, s, Towards(s, env)))
    ensures var t := Step(env, s, Towards(s, env));
            || Below(env, t, s)
            || (t.phase == s.phase && t.currentPart == s.currentPart &&
                (|t.chan| < |s.chan| || (t.chan == s.chan && t.waiting && !s.waiting)))
  {
    if s.chan == [] && s.waiting {
      hide Inv, Serves, Step, Enabled, NextEvent, Below, Healthy;
      NeverStuck(env, pieces, s) by { assert s.phase.Stopped? ==> Emptied(s); }
      NextIsHealthy(env, s);
      StepDescends(env, pieces, s, NextEvent(s, env));
    }
  }

  /** From every state in which nothing has failed, some continuation stops the goroutine and empties the channel. */
  lemma {:induction false} Completion(env: Env, pieces: seq<Bytes>, s: Pipe) returns (run: seq<Event>)
    requires Serves(env, pieces) && Inv(env, pieces, s) && Healthy(s)
    ensures IsRun(env, s, run) && Emptied(Final(env, s, run))
    decreases env.plan.totalParts - s.currentPart, Rank(s.phase), Work(s.phase), |s.chan|, !s.waiting
  {
    if Emptied(s) {
      return [];
    }
    var ev := Towards(s, env);
    TowardsEnd(env, pieces, s);
    StepInv(env, pieces, s, ev);
    var t := Step(env, s, ev);
    var more := Completion(env, pieces, t);
    run := [ev] + more;
    assert run[1..] == more;
  }

  lemma {:induction false} RunAppend(env: Env, s: Pipe, run: seq<Event>, more: seq<Event>)
    requires IsRun(env, s, run) && IsRun(env, Final(env, s, run), more)
    ensures IsRun(env, s, run + more) && Final(env, s, run + more) == Final(env, Final(env, s, run), more)
    decreases |run|
  {
    hide Step, Enabled;
    if run == [] {
      assert run + more == more;
    } else {
      RunAppend(env, Step(env, s, run[0]), run[1..], more);
      assert (run + more)[0] == run[0] && (run + more)[1..] == run[1..] + more;
    }
  }

  /** Whatever the channel's capacity, the concurrency and the steps taken so far, as long as nothing has failed the
      run can go on to deliver the whole range; in a fault-free environment nothing ever fails. */
  lemma {:induction false} EveryRunCanComplete(env: Env, run: seq<Event>) returns (more: seq<Event>)
    requires env.Valid() && IsRun(env, Start(env), run)
    requires !env.faulty || Healthy(Final(env, Start(env), run))
    ensures IsRun(env, Start(env), run + more)
    ensures Emptied(Final(env, Start(env), run + more))
    ensures Received(env, Start(env), run + more) == env.source[env.plan.start..env.plan.end + 1]
  {
    hide Step, Enabled, Serves, Env.Pieces, Start, Plan.Offset;
    var pieces := env.Pieces();
    PiecesServed(env);
    StartInv(env, pieces);
    RunInv(env, pieces, Start(env), run);
    more := Completion(env, pieces, Final(env, Start(env), run));
    RunAppend(env, Start(env), run, more);
    EveryRunDeliversPrefix(env, run + more);
  }
}
