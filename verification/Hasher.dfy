/** `BlockHasher` (`internal/hash/hash.go`): blocks hashed by parallel workers, committed in order. */
module Hasher {
  import Arith
  import opened Bytes
  import opened HashNet

  // ---- The serial hash ------------------------------------------------------------------

  /** `data` cut into blocks; only the last may be short. */
  function Chop(data: Bytes, blockSize: nat): seq<Bytes>
    requires blockSize > 0
    decreases |data|
  {
    if data == [] then []
    else
      var n := Min(blockSize, |data|);
      [data[..n]] + Chop(data[n..], blockSize)
  }

  function Digests(hash: Bytes -> Bytes, blocks: seq<Bytes>): seq<Bytes>
  {
    seq(|blocks|, i requires 0 <= i < |blocks| => hash(blocks[i]))
  }

  /** What hashing the blocks one after another and concatenating the digests gives. */
  function SerialSum(hash: Bytes -> Bytes, blockSize: nat, data: Bytes): Bytes
    requires blockSize > 0
  {
    Flat(Digests(hash, Chop(data, blockSize)))
  }

  /** Every digest has `d` bytes. */
  ghost predicate DigestSize(hash: Bytes -> Bytes, d: nat)
  {
    forall b: Bytes :: |hash(b)| == d
  }

  /** `sum` holds one digest of `d` bytes for every block of `data`, in order: piece `k` of it is the hash of block
      `k`. */
  ghost predicate HashesBlocks(hash: Bytes -> Bytes, d: nat, blockSize: nat, data: Bytes, sum: Bytes)
    requires blockSize > 0
  {
    && |sum| == Blocks(|data|, blockSize) * d
    && forall k: nat {:trigger Piece(sum, k, d)} ::
         k < Blocks(|data|, blockSize) ==> Piece(sum, k, d) == hash(Piece(data, k, blockSize))
  }

  lemma {:induction false} BlockCount(n: nat, unit: nat, k: nat)
    requires unit > 0
    ensures k < Blocks(n, unit) <==> k * unit < n
  {
    Arith.DivMod(n, unit);
    if k <= n / unit {
      Arith.MulLe(k, n / unit, unit);
      if k < n / unit {
        Arith.MulNext(k, n / unit, unit);
      }
    } else {
      Arith.MulNext(n / unit, k, unit);
    }
  }

  /** The same for one block, with the offsets written out. */
  lemma {:induction false} BlockDigest(hash: Bytes -> Bytes, d: nat, blockSize: nat, data: Bytes, sum: Bytes, k: nat)
    requires blockSize > 0 && HashesBlocks(hash, d, blockSize, data, sum) && k * blockSize < |data|
    ensures (k + 1) * d <= |sum|
    ensures sum[k * d..(k + 1) * d] == hash(data[k * blockSize..Min((k + 1) * blockSize, |data|)])
  {
    var n := Blocks(|data|, blockSize);
    BlockCount(|data|, blockSize, k);
    Arith.MulNext(k, n, d);
    Arith.MulNext(k, k + 1, blockSize);
    Arith.MulLe(0, k, d);
    Arith.MulLe(0, k, blockSize);
    assert Piece(sum, k, d) == sum[k * d..(k + 1) * d];
  }

  lemma {:induction false} BlocksNext(n: nat, unit: nat)
    requires unit > 0 && n > 0
    ensures Blocks(n, unit) == 1 + Blocks(Max(n - unit, 0), unit)
  {
    Arith.DivMod(n, unit);
    if n >= unit {
      Arith.MulDiff(n / unit, 1, unit);
      Arith.DivModUnique(n - unit, n / unit - 1, n % unit, unit);
    } else {
      Arith.DivModUnique(n, 0, n, unit);
      Arith.DivModUnique(0, 0, 0, unit);
    }
  }

  /** A slice past the first `n` elements, seen from there. */
  lemma {:induction false} SliceAfter(s: Bytes, n: nat, a: nat, b: nat)
    requires n <= |s| && a <= b
    ensures s[Min(n + a, |s|)..Min(n + b, |s|)] == s[n..][Min(a, |s| - n)..Min(b, |s| - n)]
  {
    SubSlice(s, n, |s|, Min(a, |s| - n), Min(b, |s| - n));
    assert s[n..] == s[n..|s|];
  }

  lemma {:induction false} SerialSumNext(hash: Bytes -> Bytes, blockSize: nat, data: Bytes)
    requires blockSize > 0 && data != []
    ensures var n := Min(blockSize, |data|);
            SerialSum(hash, blockSize, data) == hash(data[..n]) + SerialSum(hash, blockSize, data[n..])
  {
    var n := Min(blockSize, |data|);
    var blocks := Chop(data, blockSize);
    assert Digests(hash, blocks)[1..] == Digests(hash, blocks[1..]);
    assert blocks[1..] == Chop(data[n..], blockSize);
  }

  lemma {:induction false} NextDigest(hash: Bytes -> Bytes, d: nat, blockSize: nat, data: Bytes, tail: Bytes)
    requires blockSize > 0 && DigestSize(hash, d) && data != []
    requires HashesBlocks(hash, d, blockSize, data[Min(blockSize, |data|)..], tail)
    ensures HashesBlocks(hash, d, blockSize, data, hash(data[..Min(blockSize, |data|)]) + tail)
  {
    var n := Min(blockSize, |data|);
    var first, rest := hash(data[..n]), data[n..];
    var sum := first + tail;
    BlocksNext(|data|, blockSize);
    Arith.MulDiff(Blocks(|data|, blockSize), 1, d);
    forall k: nat | k < Blocks(|data|, blockSize)
      ensures Piece(sum, k, d) == hash(Piece(data, k, blockSize))
    {
      if k == 0 {
        assert Piece(data, 0, blockSize) == data[..n] && Piece(sum, 0, d) == first;
      } else {
        assert n == blockSize && sum[d..] == tail;
        Arith.MulNext(k - 1, k, blockSize);
        Arith.MulNext(k, k + 1, blockSize);
        Arith.MulNext(k - 1, k, d);
        Arith.MulNext(k, k + 1, d);
        Arith.MulLe(0, k - 1, blockSize);
        Arith.MulLe(0, k - 1, d);
        SliceAfter(data, blockSize, (k - 1) * blockSize, k * blockSize);
        SliceAfter(sum, d, (k - 1) * d, k * d);
        assert Piece(data, k, blockSize) == Piece(rest, k - 1, blockSize) && Piece(sum, k, d) == Piece(tail, k - 1, d);
      }
    }
  }

  /** The serial hash is one digest per block, in order. */
  lemma {:induction false} SerialSumHashesBlocks(hash: Bytes -> Bytes, d: nat, blockSize: nat, data: Bytes)
    requires blockSize > 0 && DigestSize(hash, d)
    ensures HashesBlocks(hash, d, blockSize, data, SerialSum(hash, blockSize, data))
    decreases |data|
  {
    var sum := SerialSum(hash, blockSize, data);
    if data == [] {
      Arith.DivModUnique(0, 0, 0, blockSize);
    } else {
      var n := Min(blockSize, |data|);
      var rest := data[n..];
      SerialSumNext(hash, blockSize, data);
      SerialSumHashesBlocks(hash, d, blockSize, rest);
      NextDigest(hash, d, blockSize, data, SerialSum(hash, blockSize, rest));
    }
  }

  lemma {:induction false} SumHashesBlocks(hash: Bytes -> Bytes, blockSize: nat, data: Bytes)
    requires blockSize > 0
    ensures forall d: nat :: DigestSize(hash, d) ==> HashesBlocks(hash, d, blockSize, data, SerialSum(hash, blockSize, data))
  {
    forall d: nat | DigestSize(hash, d)
      ensures HashesBlocks(hash, d, blockSize, data, SerialSum(hash, blockSize, data))
    {
      SerialSumHashesBlocks(hash, d, blockSize, data);
    }
  }

  predicate AllFull(blocks: seq<Bytes>, blockSize: nat)
  {
    forall i :: 0 <= i < |blocks| ==> |blocks[i]| == blockSize
  }

  function Tail(cur: Bytes): seq<Bytes> { if cur == [] then [] else [cur] }

  /** Full blocks followed by a remainder are what chopping their concatenation gives. */
  lemma {:induction false} ChopFull(blocks: seq<Bytes>, cur: Bytes, blockSize: nat)
    requires blockSize > 0 && AllFull(blocks, blockSize) && |cur| <= blockSize
    ensures Chop(Flat(blocks) + cur, blockSize) == blocks + Tail(cur)
  {
    var data := Flat(blocks) + cur;
    if blocks == [] {
      assert data == cur;
      if cur != [] {
        assert cur[..|cur|] == cur && cur[|cur|..] == [];
      }
    } else {
      ChopFull(blocks[1..], cur, blockSize);
      assert data == blocks[0] + (Flat(blocks[1..]) + cur);
      assert data[..blockSize] == blocks[0] && data[blockSize..] == Flat(blocks[1..]) + cur;
      assert blocks == [blocks[0]] + blocks[1..];
    }
  }

  // ---- The workers in the background -------------------------------------------------------

  /** The workers run for a while: any number of steps, in any order. */
  method RunWorkers(hash: Bytes -> Bytes, ghost blocks: seq<Bytes>, s: Net) returns (t: Net)
    requires Faithful(hash, blocks, s)
    ensures Faithful(hash, blocks, t) && InFlight(t) == InFlight(s)
    ensures |t.workers| == |s.workers| && t.jobsClosed == s.jobsClosed
  {
    hide Faithful, Step, Enabled, InFlight;
    t := s;
    var steps: int := *;
    while steps > 0
      invariant Faithful(hash, blocks, t) && InFlight(t) == InFlight(s)
      invariant |t.workers| == |s.workers| && t.jobsClosed == s.jobsClosed
    {
      var ev: Event := *;
      if Enabled(t, ev) {
        StepFaithful(hash, blocks, t, ev);
        StepConserves(hash, t, ev);
        t := Step(hash, t, ev);
      }
      steps := steps - 1;
    }
  }

  /** One step while the producer waits: whichever the scheduler picks, and always one that exists. */
  method WorkerStep(hash: Bytes -> Bytes, ghost blocks: seq<Bytes>, s: Net) returns (t: Net)
    requires Faithful(hash, blocks, s) && |s.results| < s.Capacity()
    requires s.jobs != [] || |WorkBag(s.workers)| > 0
    ensures Faithful(hash, blocks, t) && InFlight(t) == InFlight(s) && Measure(t) < Measure(s)
    ensures |t.workers| == |s.workers| && t.jobsClosed == s.jobsClosed
  {
    hide Faithful, Step, Enabled, InFlight, Measure, NextEvent, WorkBag;
    var ev: Event := *;
    if !Enabled(s, ev) {
      NeverStuck(hash, blocks, s);
      ev := NextEvent(s);
    }
    StepFaithful(hash, blocks, s, ev);
    StepConserves(hash, s, ev);
    StepDescends(hash, s, ev);
    t := Step(hash, s, ev);
  }

  /** Wait for room in the job channel. At most 3W blocks are in flight, so when 2W of them fill the job channel
      the result channel has room and some worker can move: the producer never deadlocks. */
  method AwaitRoom(hash: Bytes -> Bytes, ghost blocks: seq<Bytes>, s: Net) returns (t: Net)
    requires Faithful(hash, blocks, s) && |InFlight(s)| <= 3 * |s.workers|
    ensures Faithful(hash, blocks, t) && InFlight(t) == InFlight(s) && |t.jobs| < t.Capacity()
    ensures |t.workers| == |s.workers| && t.jobsClosed == s.jobsClosed
  {
    hide InFlight, Measure, WorkBag;
    t := RunWorkers(hash, blocks, s);
    while |t.jobs| >= t.Capacity()
      invariant Faithful(hash, blocks, t) && InFlight(t) == InFlight(s)
      invariant |t.workers| == |s.workers| && t.jobsClosed == s.jobsClosed
      decreases Measure(t)
    {
      BagSizes(t);
      t := WorkerStep(hash, blocks, t);
    }
  }

  /** Wait for a result while blocks are in flight: one always comes, so the result channel is never seen closed. */
  method AwaitResult(hash: Bytes -> Bytes, ghost blocks: seq<Bytes>, s: Net) returns (t: Net)
    requires Faithful(hash, blocks, s) && |InFlight(s)| > 0
    ensures Faithful(hash, blocks, t) && InFlight(t) == InFlight(s) && t.results != []
    ensures |t.workers| == |s.workers| && t.jobsClosed == s.jobsClosed
  {
    hide InFlight, Measure, WorkBag;
    t := RunWorkers(hash, blocks, s);
    while t.results == []
      invariant Faithful(hash, blocks, t) && InFlight(t) == InFlight(s)
      invariant |t.workers| == |s.workers| && t.jobsClosed == s.jobsClosed
      decreases Measure(t)
    {
      BagSizes(t);
      t := WorkerStep(hash, blocks, t);
    }
  }

  // ---- Accounts --------------------------------------------------------------------------------

  /** Every dispatched block is in exactly one place: in flight once, kept out of order, or committed. */
  ghost predicate Accounted(flight: multiset<nat>, outOfOrder: map<nat, Bytes>, commit: nat, dispatch: nat)
  {
    forall i: nat {:trigger flight[i]} {:trigger i in outOfOrder} ::
      flight[i] + (if i in outOfOrder then 1 else 0) + (if i < commit then 1 else 0) == (if i < dispatch then 1 else 0)
  }

  /** Kept and committed digests are those of their blocks. */
  ghost predicate Recorded(hash: Bytes -> Bytes, blocks: seq<Bytes>, hashes: seq<Bytes>, outOfOrder: map<nat, Bytes>, commit: nat)
  {
    && commit <= |blocks| && hashes == Digests(hash, blocks[..commit])
    && forall i :: i in outOfOrder ==> i < |blocks| && outOfOrder[i] == hash(blocks[i])
  }

  /** The loop that concatenates the block hashes. */
  method Concat(hashes: seq<Bytes>) returns (result: Bytes)
    ensures result == Flat(hashes)
  {
    result := [];
    for i := 0 to |hashes|
      invariant result == Flat(hashes[..i])
    {
      FlatSnoc(hashes[..i], hashes[i]);
      assert hashes[..i + 1] == hashes[..i] + [hashes[i]];
      result := result + hashes[i];
    }
    assert hashes[..|hashes|] == hashes;
  }

  lemma {:induction false} CloseFlight(s: Net)
    ensures InFlight(s.(jobsClosed := true)) == InFlight(s)
  {
  }

  /** A result that arrives leaves the flight and is kept. */
  lemma {:induction false} AddLanded(flight: multiset<nat>, outOfOrder: map<nat, Bytes>, i: nat, sum: Bytes,
                                     commit: nat, dispatch: nat)
    requires Accounted(flight + multiset{i}, outOfOrder, commit, dispatch)
    ensures Accounted(flight, outOfOrder[i := sum], commit, dispatch)
  {
    forall k: nat
      ensures flight[k] + (if k in outOfOrder[i := sum] then 1 else 0) + (if k < commit then 1 else 0)
              == (if k < dispatch then 1 else 0)
    {
      var _ := (flight + multiset{i})[k];
    }
  }

  /** Committing the next digest moves it from the kept ones to the committed ones. */
  lemma {:induction false} CommitOne(hash: Bytes -> Bytes, blocks: seq<Bytes>, hashes: seq<Bytes>, flight: multiset<nat>,
                                     outOfOrder: map<nat, Bytes>, commit: nat, dispatch: nat)
    requires Accounted(flight, outOfOrder, commit, dispatch) && Recorded(hash, blocks, hashes, outOfOrder, commit)
    requires commit in outOfOrder
    ensures Accounted(flight, outOfOrder - {commit}, commit + 1, dispatch)
    ensures Recorded(hash, blocks, hashes + [outOfOrder[commit]], outOfOrder - {commit}, commit + 1)
  {
    forall k: nat
      ensures flight[k] + (if k in outOfOrder - {commit} then 1 else 0) + (if k < commit + 1 then 1 else 0)
              == (if k < dispatch then 1 else 0)
    {
      var _ := flight[k];
    }
    assert Digests(hash, blocks[..commit + 1]) == Digests(hash, blocks[..commit]) + [hash(blocks[commit])];
  }

  /** With nothing in flight and nothing due, everything has been committed. */
  lemma {:induction false} AllCommitted(hash: Bytes -> Bytes, blocks: seq<Bytes>, hashes: seq<Bytes>, flight: multiset<nat>,
                                        outOfOrder: map<nat, Bytes>, commit: nat, dispatch: nat)
    requires Accounted(flight, outOfOrder, commit, dispatch) && Recorded(hash, blocks, hashes, outOfOrder, commit)
    requires |flight| == 0 && commit !in outOfOrder && dispatch == |blocks|
    ensures hashes == Digests(hash, blocks)
  {
    assert flight[commit] == 0;
    assert blocks[..|blocks|] == blocks;
  }

  lemma {:induction false} FlightShrinks(s: Net)
    requires s.results != []
    ensures InFlight(s) == InFlight(s.(results := s.results[1..])) + multiset{s.results[0].index}
    ensures |InFlight(s)| == |InFlight(s.(results := s.results[1..]))| + 1
  {
    var a, b, c, i := JobBag(s.jobs), WorkBag(s.workers), ResultBag(s.results[1..]), s.results[0].index;
    assert a + b + (multiset{i} + c) == (a + b + c) + multiset{i};
  }

  lemma {:induction false} FlightGrows(s: Net, j: Job)
    ensures InFlight(s.(jobs := s.jobs + [j])) == InFlight(s) + multiset{j.index}
  {
    JobBagAppend(s.jobs, j);
    var a, b, c := JobBag(s.jobs), WorkBag(s.workers), ResultBag(s.results);
    assert (a + multiset{j.index}) + b + c == a + b + c + multiset{j.index};
  }

  lemma {:induction false} GrowFaithful(hash: Bytes -> Bytes, blocks: seq<Bytes>, s: Net, block: Bytes)
    requires Faithful(hash, blocks, s) && |s.jobs| < s.Capacity() && !s.jobsClosed
    ensures Faithful(hash, blocks + [block], s.(jobs := s.jobs + [Job(|blocks|, block)]))
  {
  }

  lemma {:induction false} GrowRecorded(hash: Bytes -> Bytes, blocks: seq<Bytes>, hashes: seq<Bytes>,
                                        outOfOrder: map<nat, Bytes>, commit: nat, block: Bytes)
    requires Recorded(hash, blocks, hashes, outOfOrder, commit)
    ensures Recorded(hash, blocks + [block], hashes, outOfOrder, commit)
  {
    assert (blocks + [block])[..commit] == blocks[..commit];
  }

  class BlockHasher {
    const hash: Bytes -> Bytes
    const blockSize: nat
    var net: Net
    var currentBlock: Bytes
    var blockHashes: seq<Bytes>
    var outOfOrder: map<nat, Bytes>
    var nextDispatchIndex: nat
    var nextCommitIndex: nat
    var pending: int
    var closed: bool
    ghost var blocks: seq<Bytes>  // every block dispatched so far

    ghost predicate Books()
      reads this`net, this`blocks, this`closed, this`nextDispatchIndex, this`pending
      reads this`outOfOrder, this`nextCommitIndex, this`blockHashes
    {
      && Faithful(hash, blocks, net) && closed == net.jobsClosed
      && |blocks| == nextDispatchIndex && pending == |InFlight(net)|
      && Accounted(InFlight(net), outOfOrder, nextCommitIndex, nextDispatchIndex)
      && Recorded(hash, blocks, blockHashes, outOfOrder, nextCommitIndex)
      && nextCommitIndex !in outOfOrder
    }

    /** Between calls at most 3W blocks are in flight. */
    ghost predicate Valid()
      reads this
    {
      && Books() && blockSize > 0
      && (if closed then currentBlock == [] && Chop(Flat(blocks), blockSize) == blocks
          else AllFull(blocks, blockSize) && |currentBlock| < blockSize && pending <= 3 * |net.workers|)
    }

    /** Everything written so far. */
    ghost function Fed(): Bytes
      reads this
    {
      Flat(blocks) + currentBlock
    }

    constructor (hash: Bytes -> Bytes, blockSize: nat, workerCount: nat)
      requires blockSize > 0 && workerCount >= 1
      ensures Valid() && Fed() == [] && !closed && this.hash == hash && this.blockSize == blockSize
    {
      this.hash, this.blockSize := hash, blockSize;
      net := Fresh(workerCount);
      currentBlock, blockHashes, outOfOrder := [], [], map[];
      nextDispatchIndex, nextCommitIndex, pending, closed := 0, 0, 0, false;
      blocks := [];
      WorkBagIdle(workerCount);
    }

    /** Hand a block to the workers, waiting for room if need be. */
    method DispatchBlock(block: Bytes)
      requires Books() && !closed && pending <= 3 * |net.workers|
      modifies this`net, this`nextDispatchIndex, this`pending, this`blocks
      ensures Books() && blocks == old(blocks) + [block] && pending == old(pending) + 1
      ensures |net.workers| == old(|net.workers|)
    {
      hide InFlight, WorkBag, ResultBag;
      net := AwaitRoom(hash, blocks, net);
      ghost var before := net;
      net := net.(jobs := net.jobs + [Job(nextDispatchIndex, block)]);
      FlightGrows(before, Job(nextDispatchIndex, block));
      GrowFaithful(hash, blocks, before, block);
      GrowRecorded(hash, blocks, blockHashes, outOfOrder, nextCommitIndex, block);
      blocks := blocks + [block];
      nextDispatchIndex := nextDispatchIndex + 1;
      pending := pending + 1;
    }

    /** Commit digests as long as the next one due has been kept. */
    method CommitDue(ghost flight: multiset<nat>)
      requires Accounted(flight, outOfOrder, nextCommitIndex, nextDispatchIndex)
      requires Recorded(hash, blocks, blockHashes, outOfOrder, nextCommitIndex)
      modifies this`outOfOrder, this`blockHashes, this`nextCommitIndex
      ensures Accounted(flight, outOfOrder, nextCommitIndex, nextDispatchIndex)
      ensures Recorded(hash, blocks, blockHashes, outOfOrder, nextCommitIndex) && nextCommitIndex !in outOfOrder
    {
      hide Accounted, Digests;
      while nextCommitIndex in outOfOrder
        invariant Accounted(flight, outOfOrder, nextCommitIndex, nextDispatchIndex)
        invariant Recorded(hash, blocks, blockHashes, outOfOrder, nextCommitIndex)
        decreases |blocks| - nextCommitIndex
      {
        CommitOne(hash, blocks, blockHashes, flight, outOfOrder, nextCommitIndex, nextDispatchIndex);
        blockHashes := blockHashes + [outOfOrder[nextCommitIndex]];
        outOfOrder := outOfOrder - {nextCommitIndex};
        nextCommitIndex := nextCommitIndex + 1;
      }
    }

    /** Record one result and commit every digest that has become due. */
    method ProcessResult(res: Result)
      requires Faithful(hash, blocks, net) && closed == net.jobsClosed && |blocks| == nextDispatchIndex
      requires res.index < |blocks| && res.sum == hash(blocks[res.index])
      requires pending == |InFlight(net)| + 1
      requires Accounted(InFlight(net) + multiset{res.index}, outOfOrder, nextCommitIndex, nextDispatchIndex)
      requires Recorded(hash, blocks, blockHashes, outOfOrder, nextCommitIndex)
      modifies this`pending, this`outOfOrder, this`blockHashes, this`nextCommitIndex
      ensures Books() && pending == old(pending) - 1
    {
      hide InFlight, Faithful, Digests, Accounted;
      ghost var flight := InFlight(net);
      pending := pending - 1;
      outOfOrder := outOfOrder[res.index := res.sum];
      AddLanded(flight, old(outOfOrder), res.index, res.sum, nextCommitIndex, nextDispatchIndex);
      CommitDue(flight);
    }

    /** Take a result from the channel and record it. */
    method Receive()
      requires Books() && net.results != []
      modifies this`net, this`pending, this`outOfOrder, this`blockHashes, this`nextCommitIndex
      ensures Books() && pending == old(pending) - 1 && |net.workers| == old(|net.workers|)
    {
      hide InFlight, Digests;
      var res := net.results[0];
      FlightShrinks(net);
      net := net.(results := net.results[1..]);
      ProcessResult(res);
    }

    /** Take results until the channel is found empty; then only the job channel and the workers hold blocks. */
    method DrainResultsNonBlocking()
      requires Books()
      modifies this`net, this`pending, this`outOfOrder, this`blockHashes, this`nextCommitIndex
      ensures Books() && pending <= 3 * |net.workers| && |net.workers| == old(|net.workers|)
    {
      hide InFlight, WorkBag, Accounted, Recorded;
      while true
        invariant Books() && |net.workers| == old(|net.workers|)
        decreases pending
      {
        net := RunWorkers(hash, blocks, net);
        BagSizes(net);
        if net.results == [] {
          return;
        }
        Receive();
      }
    }

    /** Accepts any bytes, cut any way: what has been written is what was, followed by `p`. It always returns. */
    method Write(p: Bytes) returns (n: nat)
      requires Valid() && !closed
      modifies this
      ensures Valid() && !closed && Fed() == old(Fed()) + p && n == |p|
      ensures |net.workers| == old(|net.workers|)
    {
      hide Books, Flat;
      n := |p|;
      var rest := p;
      while |rest| > 0
        invariant Valid() && !closed && Fed() + rest == old(Fed()) + p
        invariant |net.workers| == old(|net.workers|)
      {
        var remaining := Min(blockSize - |currentBlock|, |rest|);
        Moved(Flat(blocks) + currentBlock, rest[..remaining], rest[remaining..]);
        assert rest == rest[..remaining] + rest[remaining..];
        assert Flat(blocks) + (currentBlock + rest[..remaining]) == (Flat(blocks) + currentBlock) + rest[..remaining];
        currentBlock := currentBlock + rest[..remaining];
        rest := rest[remaining..];
        if |currentBlock| == blockSize {
          FlatSnoc(blocks, currentBlock);
          DispatchBlock(currentBlock);
          currentBlock := [];
          DrainResultsNonBlocking();
          assert Flat(blocks) + [] == Flat(blocks);
        }
      }
    }

    /** Dispatch the last, partial block and close the job channel. */
    method CloseJobs()
      requires Valid()
      modifies this`net, this`nextDispatchIndex, this`pending, this`blocks, this`currentBlock, this`closed
      ensures Valid() && closed && Fed() == old(Fed())
    {
      hide Flat, Accounted, Recorded, InFlight;
      if !closed {
        ChopFull(blocks, currentBlock, blockSize);
        if |currentBlock| > 0 {
          FlatSnoc(blocks, currentBlock);
          DispatchBlock(currentBlock);
          currentBlock := [];
        }
        assert Flat(blocks) + [] == Flat(blocks);
        CloseFlight(net);
        net := net.(jobsClosed := true);
        closed := true;
      }
    }

    /** The digests of everything written, in order: what hashing the blocks serially gives, for every cut of the input
        and every schedule of the workers. */
    method Sum() returns (result: Bytes)
      requires Valid()
      modifies this
      ensures Valid() && closed && Fed() == old(Fed()) && pending == 0
      ensures result == SerialSum(hash, blockSize, Fed())
      ensures forall d: nat :: DigestSize(hash, d) ==> HashesBlocks(hash, d, blockSize, Fed(), result)
    {
      hide HashesBlocks, DigestSize;
      hide Flat, Chop, InFlight, Faithful, Accounted, Recorded, Digests;
      CloseJobs();
      while pending > 0
        invariant Valid() && closed && Fed() == old(Fed()) && pending >= 0
      {
        net := AwaitResult(hash, blocks, net);
        Receive();
      }
      AllCommitted(hash, blocks, blockHashes, InFlight(net), outOfOrder, nextCommitIndex, nextDispatchIndex);
      assert Flat(blocks) + [] == Flat(blocks);
      result := Concat(blockHashes);
      SumHashesBlocks(hash, blockSize, Fed());
    }
  }

  /** Whatever the number of workers and the cut of the input into writes, the sum is that of the serial hash: for
      digests of `d` bytes, `d` bytes per block, each the hash of its block of the concatenated input. */
  method HashAll(hash: Bytes -> Bytes, blockSize: nat, workerCount: nat, writes: seq<Bytes>) returns (sum: Bytes)
    requires blockSize > 0 && workerCount >= 1
    ensures sum == SerialSum(hash, blockSize, Flat(writes))
    ensures forall d: nat :: DigestSize(hash, d) ==> HashesBlocks(hash, d, blockSize, Flat(writes), sum)
  {
    hide HashesBlocks, DigestSize;
    hide BlockHasher.Books, BlockHasher.Fed, Chop, Digests;
    var h := new BlockHasher(hash, blockSize, workerCount);
    for i := 0 to |writes|
      invariant fresh(h) && h.Valid() && !h.closed && h.Fed() == Flat(writes[..i])
    {
      FlatSnoc(writes[..i], writes[i]);
      assert writes[..i + 1] == writes[..i] + [writes[i]];
      var n := h.Write(writes[i]);
    }
    assert writes[..|writes|] == writes;
    sum := h.Sum();
  }

  // ---- The tree hash over parts --------------------------------------------------------------------

  /** Every part but the last is a whole number of blocks. */
  predicate BlockAligned(parts: seq<Bytes>, blockSize: nat)
    requires blockSize > 0
  {
    forall i :: 0 <= i < |parts| - 1 ==> |parts[i]| % blockSize == 0
  }

  function PartSums(hash: Bytes -> Bytes, blockSize: nat, parts: seq<Bytes>): seq<Bytes>
    requires blockSize > 0
  {
    seq(|parts|, i requires 0 <= i < |parts| => SerialSum(hash, blockSize, parts[i]))
  }

  lemma {:induction false} DigestsAppend(hash: Bytes -> Bytes, a: seq<Bytes>, b: seq<Bytes>)
    ensures Digests(hash, a + b) == Digests(hash, a) + Digests(hash, b)
  {
  }

  /** Chopping at a block boundary splits the list of blocks there. */
  lemma {:induction false} ChopAligned(a: Bytes, b: Bytes, blockSize: nat)
    requires blockSize > 0 && |a| % blockSize == 0
    ensures Chop(a + b, blockSize) == Chop(a, blockSize) + Chop(b, blockSize)
    decreases |a|
  {
    if a == [] {
      assert a + b == b;
    } else {
      assert |a| >= blockSize;
      var rest := a[blockSize..];
      Arith.DivMod(|a|, blockSize);
      Arith.MulDiff(|a| / blockSize, 1, blockSize);
      Arith.DivModUnique(|rest|, |a| / blockSize - 1, 0, blockSize);
      ChopAligned(rest, b, blockSize);
      assert (a + b)[..blockSize] == a[..blockSize] && (a + b)[blockSize..] == rest + b;
    }
  }

  /** The tree hash input does not depend on how a file is cut into parts: concatenating the parts' block hashes in
      order gives the block hashes of the whole file. */
  lemma {:induction false} TreeInputIndependentOfParts(hash: Bytes -> Bytes, blockSize: nat, parts: seq<Bytes>)
    requires blockSize > 0 && BlockAligned(parts, blockSize)
    ensures Flat(PartSums(hash, blockSize, parts)) == SerialSum(hash, blockSize, Flat(parts))
  {
    if parts == [] {
    } else {
      var rest := parts[1..];
      TreeInputIndependentOfParts(hash, blockSize, rest);
      assert PartSums(hash, blockSize, parts)[1..] == PartSums(hash, blockSize, rest);
      if rest == [] {
        assert Flat(parts) == parts[0];
      } else {
        ChopAligned(parts[0], Flat(rest), blockSize);
        DigestsAppend(hash, Chop(parts[0], blockSize), Chop(Flat(rest), blockSize));
        FlatAppend(Digests(hash, Chop(parts[0], blockSize)), Digests(hash, Chop(Flat(rest), blockSize)));
      }
    }
  }

  /** With digests that are not empty, the hash of some bytes is never empty, and that of none is. */
  lemma {:induction false} SumIsEmpty(hash: Bytes -> Bytes, d: nat, blockSize: nat, data: Bytes, sum: Bytes)
    requires blockSize > 0 && d > 0 && HashesBlocks(hash, d, blockSize, data, sum)
    ensures sum == [] <==> data == []
  {
    BlockCount(|data|, blockSize, 0);
    if data != [] {
      Arith.MulLe(1, Blocks(|data|, blockSize), d);
    }
  }

  /** A string with the right digest for every block is the serial hash. */
  lemma {:induction false} SumIsUnique(hash: Bytes -> Bytes, d: nat, blockSize: nat, data: Bytes, a: Bytes, b: Bytes)
    requires blockSize > 0 && d > 0
    requires HashesBlocks(hash, d, blockSize, data, a) && HashesBlocks(hash, d, blockSize, data, b)
    ensures a == b
  {
    forall i | 0 <= i < |a|
      ensures a[i] == b[i]
    {
      var k, n := i / d, Blocks(|data|, blockSize);
      Arith.DivMod(i, d);
      Arith.MulNext(k, k + 1, d);
      if k >= n {
        Arith.MulLe(n, k, d);
      }
      assert Piece(a, k, d) == Piece(b, k, d);
      assert Piece(a, k, d)[i % d] == a[i] && Piece(b, k, d)[i % d] == b[i];
    }
  }

  /** What an upload stores for its parts, told by the blocks of each part. */
  lemma {:induction false} UploadsAreSums(hash: Bytes -> Bytes, d: nat, blockSize: nat, uploads: seq<Bytes>, parts: seq<Bytes>)
    requires blockSize > 0 && d > 0 && DigestSize(hash, d) && |uploads| == |parts|
    requires forall i :: 0 <= i < |parts| ==> HashesBlocks(hash, d, blockSize, parts[i], uploads[i])
    ensures uploads == PartSums(hash, blockSize, parts)
  {
    hide HashesBlocks, DigestSize, SerialSum;
    forall i | 0 <= i < |parts|
      ensures uploads[i] == SerialSum(hash, blockSize, parts[i])
    {
      SerialSumHashesBlocks(hash, d, blockSize, parts[i]);
      SumIsUnique(hash, d, blockSize, parts[i], uploads[i], SerialSum(hash, blockSize, parts[i]));
    }
  }

  /** File creation from an upload concatenates its block hashes, and when there are any, hashes them: that is the hash
      of `input`, the block digests of the whole file in order, and with digests of any fixed size only an empty upload
      gets none. Without an upload only a file of size 0 gets a hash, that of empty data. */
  method TreeHash(hash: Bytes -> Bytes, blockSize: nat, uploadGiven: bool, uploads: seq<Bytes>, size: int,
                  ghost parts: seq<Bytes>)
    returns (digest: Option<Bytes>, ghost input: Bytes)
    requires blockSize > 0 && BlockAligned(parts, blockSize)
    requires uploads == PartSums(hash, blockSize, parts)
    ensures uploadGiven && parts != [] ==> digest == if input == [] then None else Some(hash(input))
    ensures !uploadGiven || parts == [] ==> digest == if size == 0 then Some(hash([])) else None
    ensures parts == [] && size == 0 ==> digest == Some(hash(input))
    ensures input == SerialSum(hash, blockSize, Flat(parts))
    ensures forall d: nat :: DigestSize(hash, d) ==>
              HashesBlocks(hash, d, blockSize, Flat(parts), input) && (d > 0 ==> (input == [] <==> Flat(parts) == []))
  {
    hide HashesBlocks, DigestSize;
    input := SerialSum(hash, blockSize, Flat(parts));
    forall d: nat | DigestSize(hash, d)
      ensures HashesBlocks(hash, d, blockSize, Flat(parts), input) && (d > 0 ==> (input == [] <==> Flat(parts) == []))
    {
      SerialSumHashesBlocks(hash, d, blockSize, Flat(parts));
      if d > 0 {
        SumIsEmpty(hash, d, blockSize, Flat(parts), input);
      }
    }
    if !uploadGiven || |uploads| == 0 {
      digest := if size == 0 then Some(hash([])) else None;
      return;
    }
    var all := Concat(uploads);
    TreeInputIndependentOfParts(hash, blockSize, parts);
    digest := if |all| > 0 then Some(hash(all)) else None;
  }
}
