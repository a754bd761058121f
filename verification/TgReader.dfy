/** `tgMultiReader` (`internal/reader/tg_reader.go`): the reading side, running beside its fill goroutine. */
module TgReader {
  import opened Bytes
  import opened ChunkPlan
  import opened Pipe

  // ---- Retrying one request ----------------------------------------------------

  /** How one attempt to fetch a chunk ends; a deadline counts as a retryable timeout. */
  datatype Reply = Chunk(bytes: Bytes) | Deadline | Retryable | Fatal

  /** How the pause before the next attempt ends: it is waited out, the backoff policy gives up instead, or the stream
      is cancelled meanwhile. */
  datatype Pause = Waited | GivenUp | Cancelled

  const MAX_CHUNK_RETRIES := 2

  /** Attempt `j` is followed by another: it failed transiently and the pause was waited out. */
  predicate Retried(replies: nat -> Reply, pauses: nat -> Pause, j: nat)
  {
    (replies(j).Deadline? || replies(j).Retryable?) && pauses(j).Waited?
  }

  /** Attempt `k` succeeds after attempts that were all retried. */
  predicate SucceedsAt(replies: nat -> Reply, pauses: nat -> Pause, k: nat)
  {
    replies(k).Chunk? && forall j :: 0 <= j < k ==> Retried(replies, pauses, j)
  }

  /** The chunk arrives exactly when one of the first three attempts brings it and every earlier one failed
      transiently and had its pause waited out; no fourth attempt is ever made. */
  method FetchChunkWithRetry(replies: nat -> Reply, pauses: nat -> Pause) returns (r: Option<Bytes>, attempts: nat)
    ensures 1 <= attempts <= 3
    ensures r.Some? <==> exists k: nat :: k < 3 && SucceedsAt(replies, pauses, k)
    ensures r.Some? ==> replies(attempts - 1) == Chunk(r.value) && SucceedsAt(replies, pauses, attempts - 1)
    ensures forall j :: 0 <= j < attempts - 1 ==> Retried(replies, pauses, j)
    ensures r.None? ==>
              && !replies(attempts - 1).Chunk?
              && (attempts == 3 || !Retried(replies, pauses, attempts - 1))
  {
    var attempt: nat := 0;
    while true
      invariant attempt <= MAX_CHUNK_RETRIES
      invariant forall j :: 0 <= j < attempt ==> Retried(replies, pauses, j) && !replies(j).Chunk?
      decreases MAX_CHUNK_RETRIES - attempt
    {
      match replies(attempt) {
        case Chunk(bytes) =>
          assert SucceedsAt(replies, pauses, attempt);
          return Some(bytes), attempt + 1;
        case Fatal =>
          assert !Retried(replies, pauses, attempt);
          return None, attempt + 1;
        case _ =>
          if attempt >= MAX_CHUNK_RETRIES || !pauses(attempt).Waited? {
            assert Retried(replies, pauses, attempt) ==> attempt == MAX_CHUNK_RETRIES;
            return None, attempt + 1;
          }
          attempt := attempt + 1;
      }
    }
  }

  // ---- The reader ---------------------------------------------------------------

  /** `buffer` (`internal/reader/buffer.go`): a byte string and a cursor into it. */
  datatype Buffer = Buffer(bytes: Bytes, offset: nat)
  {
    predicate Valid() { offset <= |bytes| }

    function Left(): Bytes
      requires Valid()
    {
      bytes[offset..]
    }
  }

  /** The plan and settings `newTGMultiReader` fixes for a range. */
  method OpenEnv(source: Bytes, start: nat, end: nat, concurrency: nat, capacity: nat, faulty: bool) returns (e: Env)
    requires start <= end < |source| && concurrency >= 1
    ensures e.Valid() && e.source == source && e.plan.start == start && e.plan.end == end && e.faulty == faulty
    ensures e.concurrency == concurrency && e.capacity == capacity
    ensures Fits(e.plan.chunkSize, end - start) && e.plan == MakePlan(start, end, e.plan.chunkSize)
  {
    var chunkSize := CalculateChunkSize(start, end);
    MakePlanValid(start, end, chunkSize);
    e := Env(source, MakePlan(start, end, chunkSize), concurrency, capacity, faulty);
  }

  /** A freshly opened stream has the whole range ahead of it. */
  lemma {:induction false} Opening(e: Env)
    requires e.Valid()
    ensures Serves(e, e.Pieces()) && Inv(e, e.Pieces(), Start(e)) && Taken(Start(e)) == 0 && !Start(e).waiting
    ensures forall k :: 0 <= k < |e.Pieces()| ==> e.Pieces()[k] != []
    ensures Flat(e.Pieces()[0..]) == e.source[e.plan.start..e.plan.end + 1]
  {
    PiecesServed(e);
    StartInv(e, e.Pieces());
    FlatPieces(e, 0);
  }

  /** One step of the goroutine while the reader waits: some step the schedule picks, and always one that exists. */
  method WaitStep(env: Env, ghost pieces: seq<Bytes>, s: Pipe) returns (t: Pipe)
    requires Serves(env, pieces) && Inv(env, pieces, s) && s.waiting && s.chan == []
    requires !s.phase.Stopped? && !s.cancelled
    ensures Inv(env, pieces, t) && Taken(t) == Taken(s) && t.waiting && Below(env, t, s)
  {
    hide Step, Enabled, Inv, Serves, NextEvent;
    var ev: Event := *;
    if IsReader(ev) || !Enabled(env, s, ev) {
      NeverStuck(env, pieces, s);
      ev := NextEvent(s, env);
    }
    StepInv(env, pieces, s, ev);
    StepTakes(env, pieces, s, ev);
    StepDescends(env, pieces, s, ev);
    t := Step(env, s, ev);
  }

  /** Beginning and ending a wait change nothing else. */
  lemma {:induction false} WaitTurns(env: Env, pieces: seq<Bytes>, s: Pipe, ev: Event)
    requires Inv(env, pieces, s)
    requires if s.waiting then ev.EndWait? && (s.chan != [] || s.phase.Stopped? || s.cancelled) else ev.BeginWait?
    ensures Enabled(env, s, ev) && Step(env, s, ev) == s.(waiting := !s.waiting)
    ensures Inv(env, pieces, Step(env, s, ev)) && Taken(Step(env, s, ev)) == Taken(s)
  {
    ReaderInv(env, pieces, s, ev);
  }

  /** Block until the channel has a buffer, is closed, or the stream is cancelled. The wait ends because some
      step of the goroutine is always possible and every step brings it closer to its end. */
  method AwaitChannel(env: Env, ghost pieces: seq<Bytes>, s: Pipe) returns (t: Pipe)
    requires Serves(env, pieces) && Inv(env, pieces, s) && !s.waiting
    ensures Inv(env, pieces, t) && Taken(t) == Taken(s) && !t.waiting
    ensures t.chan != [] || t.phase.Stopped? || t.cancelled
  {
    hide Step, Enabled, Inv, Serves;
    WaitTurns(env, pieces, s, BeginWait);
    t := Step(env, s, BeginWait);
    while t.chan == [] && !t.phase.Stopped? && !t.cancelled
      invariant Inv(env, pieces, t) && Taken(t) == Taken(s) && t.waiting
      decreases !t.cancelled, env.plan.totalParts - t.currentPart, Rank(t.phase), Work(t.phase)
    {
      t := WaitStep(env, pieces, t);
      StoppedIsComplete(env, pieces, t);
    }
    WaitTurns(env, pieces, t, EndWait);
    t := Step(env, t, EndWait);
  }

  /** The goroutine runs for a while: any number of its steps, in any order it allows. */
  method RunFor(env: Env, ghost pieces: seq<Bytes>, s: Pipe) returns (t: Pipe)
    requires Serves(env, pieces) && Inv(env, pieces, s) && !s.waiting
    ensures Inv(env, pieces, t) && Taken(t) == Taken(s) && !t.waiting
  {
    hide Inv, Serves, Step, Enabled;
    t := s;
    var steps: nat := *;
    while steps > 0
      invariant Inv(env, pieces, t) && Taken(t) == Taken(s) && !t.waiting
    {
      var ev: Event := *;
      if !IsReader(ev) && Enabled(env, t, ev) {
        StepInv(env, pieces, t, ev);
        StepTakes(env, pieces, t, ev);
        t := Step(env, t, ev);
      }
      steps := steps - 1;
    }
  }

  /** Take the next buffer from the channel, unless the stream has been abandoned or cancelled; when both a
      buffer and the cancellation are ready, either may win. */
  method TakeBuffer(env: Env, ghost pieces: seq<Bytes>, s: Pipe) returns (t: Pipe, buffer: Option<Bytes>)
    requires Serves(env, pieces) && Inv(env, pieces, s) && !s.waiting
    ensures Inv(env, pieces, t) && !t.waiting
    ensures buffer.None? ==> Taken(t) == Taken(s) && (env.faulty || Taken(t) == |pieces|)
    ensures buffer.Some? ==> Taken(s) < |pieces| && Taken(t) == Taken(s) + 1 && buffer.value == pieces[Taken(s)]
  {
    hide Serves;
    t := AwaitChannel(env, pieces, s);
    var preferDone: bool := *;
    if t.chan == [] || (t.cancelled && preferDone) {
      return t, None;
    }
    StepInv(env, pieces, t, Receive);
    StepTakes(env, pieces, t, Receive);
    return Step(env, t, Receive), Some(t.chan[0]);
  }

  lemma {:induction false} FlatFrom(pieces: seq<Bytes>, k: nat)
    requires k <= |pieces|
    ensures Flat(pieces[k..]) == if k == |pieces| then [] else pieces[k] + Flat(pieces[k + 1..])
  {
    if k < |pieces| {
      assert pieces[k..][1..] == pieces[k + 1..];
    }
  }

  class TgMultiReader {
    const env: Env
    ghost const pieces: seq<Bytes>
    var limit: int
    var cur: Option<Buffer>
    var pipe: Pipe

    /** The bytes of the range not delivered yet. */
    ghost function Rest(): Bytes
      requires cur.Some? ==> cur.value.Valid()
      requires 0 <= Taken(pipe) <= |pieces|
      reads this
    {
      (if cur.Some? then cur.value.Left() else []) + Flat(pieces[Taken(pipe)..])
    }

    ghost predicate Valid()
      reads this
    {
      && Serves(env, pieces)
      && (forall k :: 0 <= k < |pieces| ==> pieces[k] != [])
      && Inv(env, pieces, pipe) && !pipe.waiting
      && (cur.Some? ==> cur.value.Valid())
      && limit == |Rest()|
    }

    constructor (source: Bytes, start: nat, end: nat, concurrency: nat, capacity: nat, faulty: bool)
      requires start <= end < |source| && concurrency >= 1
      ensures Valid() && Rest() == source[start..end + 1] && env.faulty == faulty
    {
      hide Inv, Serves, Env.Pieces, Start;
      var e := OpenEnv(source, start, end, concurrency, capacity, faulty);
      Opening(e);
      env, pieces := e, e.Pieces();
      limit := end - start + 1;
      cur := None;
      pipe := Start(e);
    }

    /** The fill goroutine runs for a while: any number of its steps, in any order it allows. */
    method Background()
      requires Valid()
      modifies this`pipe
      ensures Valid() && Rest() == old(Rest())
      ensures Taken(pipe) == old(Taken(pipe))
    {
      pipe := RunFor(env, pieces, pipe);
    }

    /** Make the next buffer current, unless the stream has been abandoned or cancelled. */
    method NextBuffer() returns (ok: bool)
      requires Valid() && limit > 0
      requires cur.None? || cur.value.Left() == []
      modifies this`pipe, this`cur
      ensures Valid() && Rest() == old(Rest())
      ensures ok ==> cur.Some? && cur.value.Left() != []
      ensures !ok ==> env.faulty
    {
      FlatFrom(pieces, Taken(pipe));
      var buffer;
      pipe, buffer := TakeBuffer(env, pieces, pipe);
      if buffer.None? {
        return false;
      }
      cur := Some(Buffer(buffer.value, 0));
      return true;
    }

    /** Copy out of the current buffer. */
    method Deliver(n: nat) returns (got: Bytes, err: Err)
      requires Valid() && limit > 0 && cur.Some? && cur.value.Left() != []
      modifies this`cur, this`limit
      ensures Valid()
      ensures err == if Rest() == [] then Eof else Ok
      ensures ReadStep(old(Rest()), n, got, err, Rest())
    {
      var left := cur.value.Left();
      got := left[..Min(n, |left|)];
      var next := cur.value.(offset := cur.value.offset + |got|);
      assert left == got + next.Left();
      ghost var tail := Flat(pieces[Taken(pipe)..]);
      assert left + tail == got + (next.Left() + tail);
      cur := Some(next);
      limit := limit - |got|;
      if limit <= 0 {
        cur := None;
        return got, Eof;
      }
      return got, Ok;
    }

    /** Delivers the next bytes of the range, whatever the schedule. The end is reported with the last bytes;
        a failure delivers nothing and can only come from a faulty environment. */
    method Read(n: nat) returns (got: Bytes, err: Err)
      requires Valid()
      modifies this
      ensures Valid()
      ensures err == Ok || err == Eof || err == Transport
      ensures ReadStep(old(Rest()), n, got, err, Rest())
      ensures err == Transport ==> env.faulty && got == []
      ensures err == Ok ==> Rest() != []
    {
      if limit <= 0 {
        return [], Eof;
      }
      Background();
      if cur.None? || cur.value.Left() == [] {
        var ok := NextBuffer();
        if !ok {
          return [], Transport;
        }
      }
      got, err := Deliver(n);
    }
  }
}
