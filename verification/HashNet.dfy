/** The worker goroutines of `BlockHasher` and the two bounded channels around them, as a state machine
    (`internal/hash/hash.go`, `initWorkers`). */
module HashNet {
  import opened Bytes

  datatype Job = Job(index: nat, data: Bytes)
  datatype Result = Result(index: nat, sum: Bytes)
  datatype Worker = Idle | Busy(job: Job) | Done

  /** Jobs waiting, what each worker holds, results waiting, and which channels are closed. */
  datatype Net = Net(jobs: seq<Job>, workers: seq<Worker>, results: seq<Result>, jobsClosed: bool, resultsClosed: bool)
  {
    function Capacity(): nat { 2 * |workers| }
  }

  datatype Event = Take(w: nat) | Put(w: nat) | Exit(w: nat) | CloseResults

  function Fresh(workerCount: nat): Net
  {
    Net([], seq(workerCount, _ => Idle), [], false, false)
  }

  predicate Enabled(s: Net, ev: Event)
  {
    match ev
    case Take(w) => w < |s.workers| && s.workers[w].Idle? && s.jobs != []
    case Put(w) => w < |s.workers| && s.workers[w].Busy? && |s.results| < s.Capacity()
    case Exit(w) => w < |s.workers| && s.workers[w].Idle? && s.jobs == [] && s.jobsClosed
    case CloseResults => !s.resultsClosed && forall w :: 0 <= w < |s.workers| ==> s.workers[w].Done?
  }

  function Step(hash: Bytes -> Bytes, s: Net, ev: Event): Net
    requires Enabled(s, ev)
  {
    match ev
    case Take(w) => s.(jobs := s.jobs[1..], workers := s.workers[w := Busy(s.jobs[0])])
    case Put(w) =>
      var job := s.workers[w].job;
      s.(workers := s.workers[w := Idle], results := s.results + [Result(job.index, hash(job.data))])
    case Exit(w) => s.(workers := s.workers[w := Done])
    case CloseResults => s.(resultsClosed := true)
  }

  // ---- Where the blocks are ------------------------------------------------------------

  function JobBag(jobs: seq<Job>): multiset<nat>
  {
    if jobs == [] then multiset{} else multiset{jobs[0].index} + JobBag(jobs[1..])
  }

  function Holding(w: Worker): multiset<nat>
  {
    if w.Busy? then multiset{w.job.index} else multiset{}
  }

  function WorkBag(workers: seq<Worker>): multiset<nat>
  {
    if workers == [] then multiset{} else Holding(workers[0]) + WorkBag(workers[1..])
  }

  function ResultBag(results: seq<Result>): multiset<nat>
  {
    if results == [] then multiset{} else multiset{results[0].index} + ResultBag(results[1..])
  }

  /** The indices of the blocks that are in a channel or with a worker, each as often as it is there. */
  function InFlight(s: Net): multiset<nat>
  {
    JobBag(s.jobs) + WorkBag(s.workers) + ResultBag(s.results)
  }

  lemma {:induction false} JobBagAppend(jobs: seq<Job>, j: Job)
    ensures JobBag(jobs + [j]) == JobBag(jobs) + multiset{j.index}
  {
    if jobs == [] {
    } else {
      assert (jobs + [j])[1..] == jobs[1..] + [j];
      JobBagAppend(jobs[1..], j);
    }
  }

  lemma {:induction false} ResultBagAppend(results: seq<Result>, r: Result)
    ensures ResultBag(results + [r]) == ResultBag(results) + multiset{r.index}
  {
    if results == [] {
    } else {
      assert (results + [r])[1..] == results[1..] + [r];
      ResultBagAppend(results[1..], r);
    }
  }

  lemma {:induction false} Regroup(a: multiset<nat>, b: multiset<nat>, c: multiset<nat>)
    ensures a + b + c == a + (b + c)
  {
  }

  lemma {:induction false} WorkBagUpdate(workers: seq<Worker>, w: nat, v: Worker)
    requires w < |workers|
    ensures WorkBag(workers[w := v]) + Holding(workers[w]) == WorkBag(workers) + Holding(v)
  {
    var after := workers[w := v];
    if w == 0 {
      assert after[1..] == workers[1..];
    } else {
      assert after[1..] == workers[1..][w - 1 := v];
      WorkBagUpdate(workers[1..], w - 1, v);
      Regroup(Holding(workers[0]), WorkBag(after[1..]), Holding(workers[w]));
      Regroup(Holding(workers[0]), WorkBag(workers[1..]), Holding(v));
    }
  }

  lemma {:induction false} WorkBagIdle(n: nat)
    ensures WorkBag(seq(n, _ => Idle)) == multiset{}
  {
    if n == 0 {
    } else {
      assert seq(n, _ => Idle)[1..] == seq(n - 1, _ => Idle);
      WorkBagIdle(n - 1);
    }
  }

  lemma {:induction false} JobBagSize(jobs: seq<Job>)
    ensures |JobBag(jobs)| == |jobs|
  {
    if jobs == [] {
    } else {
      JobBagSize(jobs[1..]);
    }
  }

  lemma {:induction false} ResultBagSize(results: seq<Result>)
    ensures |ResultBag(results)| == |results|
  {
    if results == [] {
    } else {
      ResultBagSize(results[1..]);
    }
  }

  lemma {:induction false} WorkBagSize(workers: seq<Worker>)
    ensures |WorkBag(workers)| <= |workers|
    ensures (forall w :: 0 <= w < |workers| ==> !workers[w].Busy?) ==> |WorkBag(workers)| == 0
    ensures |WorkBag(workers)| == 0 ==> forall w :: 0 <= w < |workers| ==> !workers[w].Busy?
  {
    if workers == [] {
    } else {
      WorkBagSize(workers[1..]);
      assert forall w :: 0 < w < |workers| ==> workers[w] == workers[1..][w - 1];
      assert |WorkBag(workers)| == |Holding(workers[0])| + |WorkBag(workers[1..])|;
    }
  }

  lemma {:induction false} BagSizes(s: Net)
    ensures |JobBag(s.jobs)| == |s.jobs| && |ResultBag(s.results)| == |s.results| && |WorkBag(s.workers)| <= |s.workers|
    ensures |InFlight(s)| == |s.jobs| + |WorkBag(s.workers)| + |s.results|
  {
    JobBagSize(s.jobs);
    ResultBagSize(s.results);
    WorkBagSize(s.workers);
  }

  lemma {:induction false} AddNothing(a: multiset<nat>, b: multiset<nat>)
    requires a + multiset{} == b + multiset{}
    ensures a == b
  {
    assert a + multiset{} == a && b + multiset{} == b;
  }

  lemma {:induction false} TakeConserves(j: multiset<nat>, i: nat, before: multiset<nat>, after: multiset<nat>, r: multiset<nat>)
    requires after + multiset{} == before + multiset{i}
    ensures j + after + r == multiset{i} + j + before + r
  {
    assert after == before + multiset{i};
  }

  lemma {:induction false} PutConserves(j: multiset<nat>, i: nat, before: multiset<nat>, after: multiset<nat>, r: multiset<nat>)
    requires after + multiset{i} == before + multiset{}
    ensures j + after + (r + multiset{i}) == j + before + r
  {
    assert j + after + (r + multiset{i}) == j + (after + multiset{i}) + r;
    assert before + multiset{} == before;
  }

  /** No step of a worker loses or duplicates a block. */
  lemma {:induction false} StepConserves(hash: Bytes -> Bytes, s: Net, ev: Event)
    requires Enabled(s, ev)
    ensures InFlight(Step(hash, s, ev)) == InFlight(s)
  {
    match ev
    case Take(w) =>
      var job := s.jobs[0];
      WorkBagUpdate(s.workers, w, Busy(job));
      TakeConserves(JobBag(s.jobs[1..]), job.index, WorkBag(s.workers), WorkBag(s.workers[w := Busy(job)]), ResultBag(s.results));
    case Put(w) =>
      var job := s.workers[w].job;
      WorkBagUpdate(s.workers, w, Idle);
      ResultBagAppend(s.results, Result(job.index, hash(job.data)));
      PutConserves(JobBag(s.jobs), job.index, WorkBag(s.workers), WorkBag(s.workers[w := Idle]), ResultBag(s.results));
    case Exit(w) =>
      WorkBagUpdate(s.workers, w, Done);
      AddNothing(WorkBag(s.workers[w := Done]), WorkBag(s.workers));
    case CloseResults =>
  }

  // ---- What the blocks say -----------------------------------------------------------------

  /** Every job carries its block, every result its block's hash; workers leave only when the closed job channel is
      empty, and the result channel closes only when they have all left. */
  predicate Faithful(hash: Bytes -> Bytes, blocks: seq<Bytes>, s: Net)
  {
    && |s.workers| >= 1 && |s.jobs| <= s.Capacity() && |s.results| <= s.Capacity()
    && (forall j :: 0 <= j < |s.jobs| ==> s.jobs[j].index < |blocks| && s.jobs[j].data == blocks[s.jobs[j].index])
    && (forall w :: 0 <= w < |s.workers| && s.workers[w].Busy? ==>
          s.workers[w].job.index < |blocks| && s.workers[w].job.data == blocks[s.workers[w].job.index])
    && (forall r :: 0 <= r < |s.results| ==>
          s.results[r].index < |blocks| && s.results[r].sum == hash(blocks[s.results[r].index]))
    && ((exists w :: 0 <= w < |s.workers| && s.workers[w].Done?) ==> s.jobsClosed && s.jobs == [])
    && (s.resultsClosed ==> forall w :: 0 <= w < |s.workers| ==> s.workers[w].Done?)
  }

  lemma {:induction false} StepFaithful(hash: Bytes -> Bytes, blocks: seq<Bytes>, s: Net, ev: Event)
    requires Faithful(hash, blocks, s) && Enabled(s, ev)
    ensures Faithful(hash, blocks, Step(hash, s, ev))
    ensures |Step(hash, s, ev).workers| == |s.workers| && Step(hash, s, ev).jobsClosed == s.jobsClosed
  {
    match ev
    case Take(w) => assert s.workers[w].Idle?;
    case Put(w) => assert s.workers[w].Busy?;
    case Exit(w) => assert s.workers[w].Idle?;
    case CloseResults =>
  }

  // ---- Progress ---------------------------------------------------------------------------------

  function Live(workers: seq<Worker>): nat
  {
    if workers == [] then 0 else (if workers[0].Done? then 0 else 1) + Live(workers[1..])
  }

  lemma {:induction false} LiveUpdate(workers: seq<Worker>, w: nat, v: Worker)
    requires w < |workers| && !workers[w].Done?
    ensures Live(workers[w := v]) == Live(workers) - (if v.Done? then 1 else 0)
  {
    var after := workers[w := v];
    if w == 0 {
      assert after[1..] == workers[1..];
    } else {
      assert after[1..] == workers[1..][w - 1 := v];
      LiveUpdate(workers[1..], w - 1, v);
    }
  }

  /** Work the goroutines can still do on their own. */
  function Measure(s: Net): nat
  {
    2 * |s.jobs| + |WorkBag(s.workers)| + Live(s.workers) + (if s.resultsClosed then 0 else 1)
  }

  lemma {:induction false} SumSize(a: multiset<nat>, b: multiset<nat>, c: multiset<nat>, d: multiset<nat>)
    requires a + b == c + d
    ensures |a| + |b| == |c| + |d|
  {
    assert |a + b| == |a| + |b| && |c + d| == |c| + |d|;
  }

  lemma {:induction false} StepDescends(hash: Bytes -> Bytes, s: Net, ev: Event)
    requires Enabled(s, ev)
    ensures Measure(Step(hash, s, ev)) < Measure(s)
  {
    match ev
    case Take(w) =>
      WorkBagUpdate(s.workers, w, Busy(s.jobs[0]));
      LiveUpdate(s.workers, w, Busy(s.jobs[0]));
      SumSize(WorkBag(Step(hash, s, ev).workers), Holding(s.workers[w]), WorkBag(s.workers), Holding(Busy(s.jobs[0])));
    case Put(w) =>
      WorkBagUpdate(s.workers, w, Idle);
      LiveUpdate(s.workers, w, Idle);
      SumSize(WorkBag(Step(hash, s, ev).workers), Holding(s.workers[w]), WorkBag(s.workers), Holding(Idle));
    case Exit(w) =>
      WorkBagUpdate(s.workers, w, Done);
      LiveUpdate(s.workers, w, Done);
      AddNothing(WorkBag(s.workers[w := Done]), WorkBag(s.workers));
    case CloseResults =>
  }

  function FirstBusy(workers: seq<Worker>): (w: nat)
    requires exists w: nat :: w < |workers| && workers[w].Busy?
    ensures w < |workers| && workers[w].Busy?
  {
    if workers[0].Busy? then 0
    else
      (var w: nat :| w < |workers| && workers[w].Busy?;
       assert workers[1..][w - 1].Busy?;
       1 + FirstBusy(workers[1..]))
  }

  /** A step some worker can take: hand in what it holds, or else take a job. */
  function NextEvent(s: Net): Event
  {
    if exists w: nat :: w < |s.workers| && s.workers[w].Busy? then Put(FirstBusy(s.workers)) else Take(0)
  }

  /** The workers can always move while there is something left for them to do and room for a result: nobody waits
      for ever on a full job channel or an empty result channel. */
  lemma {:induction false} NeverStuck(hash: Bytes -> Bytes, blocks: seq<Bytes>, s: Net)
    requires Faithful(hash, blocks, s) && |s.results| < s.Capacity()
    requires s.jobs != [] || |WorkBag(s.workers)| > 0
    ensures Enabled(s, NextEvent(s))
  {
    WorkBagSize(s.workers);
    if !(exists w: nat :: w < |s.workers| && s.workers[w].Busy?) {
      assert s.jobs != [];
      assert !s.workers[0].Done?;
    }
  }
}
