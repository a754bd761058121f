/** The pool of Telegram clients (`internal/tgc/client_pool.go`): slots with a connection ledger, routing, the idle
    sweep and the bots' circuit breakers. Every call is one step. */
module ClientPool {
  import opened Arith
  import opened Bytes
  import opened Breaker

  datatype Key = User(id: int) | Bot(user: int, token: string)

  datatype Slot = Slot(connections: int, lastUsed: int, ready: bool)

  datatype Strategy = RoundRobin | LeastConnections

  datatype Answer = Client(key: Key) | Refused

  /** How creating and starting a client ends. */
  datatype Creation = Created | CreateFailed | CreateCanceled

  // ---- The sum of the connections -----------------------------------------------------

  lemma {:induction false} SmallerWithout(slots: map<Key, Slot>, k: Key)
    requires k in slots
    ensures |slots - {k}| == |slots| - 1
  {
    assert (slots - {k}).Keys == slots.Keys - {k};
  }

  ghost function Total(slots: map<Key, Slot>): int
    decreases |slots|
  {
    if slots == map[] then 0
    else
      var k :| k in slots;
      assert |slots - {k}| < |slots| by { SmallerWithout(slots, k); }
      slots[k].connections + Total(slots - {k})
  }

  /** The sum does not depend on the order: any slot can be taken out first. */
  lemma {:induction false} TotalWithout(slots: map<Key, Slot>, k: Key)
    requires k in slots
    ensures Total(slots) == slots[k].connections + Total(slots - {k})
    decreases |slots|
  {
    var j :| j in slots && Total(slots) == slots[j].connections + Total(slots - {j});
    SmallerWithout(slots, j);
    if j == k {
    } else {
      var less := slots - {j};
      TotalWithout(less, k);
      SmallerWithout(slots, k);
      TotalWithout(slots - {k}, j);
      assert less - {k} == slots - {k} - {j};
    }
  }

  /** Setting a slot changes the sum by the change of its connections; a new slot counts from zero. */
  lemma {:induction false} TotalSet(slots: map<Key, Slot>, k: Key, s: Slot)
    ensures Total(slots[k := s]) == Total(slots) + s.connections - (if k in slots then slots[k].connections else 0)
  {
    TotalWithout(slots[k := s], k);
    assert slots[k := s] - {k} == slots - {k};
    if k in slots {
      TotalWithout(slots, k);
    } else {
      assert slots - {k} == slots;
    }
  }

  // ---- Helpers of GetBotClient ---------------------------------------------------------------

  function BotKeys(userId: int, bots: seq<string>): (keys: seq<Key>)
    ensures |keys| == |bots|
  {
    seq(|bots|, i requires 0 <= i < |bots| => Bot(userId, bots[i]))
  }

  lemma {:induction false} BotKeysAreBots(userId: int, bots: seq<string>)
    ensures forall k :: k in BotKeys(userId, bots) ==> k.Bot?
  {
  }

  predicate Distinct(keys: seq<Key>)
  {
    forall i, j :: 0 <= i < j < |keys| ==> keys[i] != keys[j]
  }

  lemma {:induction false} DistinctSnoc(keys: seq<Key>, key: Key)
    requires Distinct(keys) && key !in keys
    ensures Distinct(keys + [key])
  {
  }

  lemma {:induction false} NothingDistinct()
    ensures Distinct([])
  {
  }

  /** The keys that are not in `out`, in their order. */
  function Except(keys: seq<Key>, out: set<Key>): (r: seq<Key>)
    ensures forall k :: k in r <==> k in keys && k !in out
    ensures |r| <= |keys|
  {
    if keys == [] then []
    else
      var n := |keys| - 1;
      assert keys == keys[..n] + [keys[n]];
      Except(keys[..n], out) + if keys[n] in out then [] else [keys[n]]
  }

  lemma {:induction false} ExceptSnoc(keys: seq<Key>, key: Key, out: set<Key>)
    ensures Except(keys + [key], out) == Except(keys, out) + if key in out then [] else [key]
  {
    assert (keys + [key])[..|keys|] == keys;
  }

  lemma {:induction false} ExceptEmpty(out: set<Key>)
    ensures Except([], out) == []
  {
  }

  lemma {:induction false} ExceptNothing(keys: seq<Key>, out: set<Key>)
    requires forall k :: k in keys ==> k !in out
    ensures Except(keys, out) == keys
  {
    hide Except;
    if keys == [] {
      ExceptEmpty(out);
    } else {
      var n := |keys| - 1;
      assert keys == keys[..n] + [keys[n]];
      ExceptNothing(keys[..n], out);
      ExceptSnoc(keys[..n], keys[n], out);
    }
  }

  /** Leaving out respects concatenation, so what remains keeps its order. */
  lemma {:induction false} ExceptAppend(a: seq<Key>, b: seq<Key>, out: set<Key>)
    ensures Except(a + b, out) == Except(a, out) + Except(b, out)
    decreases |b|
  {
    hide Except;
    if b == [] {
      assert a + b == a;
      ExceptEmpty(out);
    } else {
      var n := |b| - 1;
      assert b == b[..n] + [b[n]] && a + b == (a + b[..n]) + [b[n]];
      ExceptAppend(a, b[..n], out);
      ExceptSnoc(a + b[..n], b[n], out);
      ExceptSnoc(b[..n], b[n], out);
    }
  }

  /** Leaving out in two steps is leaving out both at once. */
  lemma {:induction false} ExceptTwice(keys: seq<Key>, a: set<Key>, b: set<Key>)
    ensures Except(Except(keys, a), b) == Except(keys, a + b)
  {
    hide Except;
    if keys == [] {
      ExceptEmpty(a);
      ExceptEmpty(b);
      ExceptEmpty(a + b);
    } else {
      var n := |keys| - 1;
      assert keys == keys[..n] + [keys[n]];
      ExceptTwice(keys[..n], a, b);
      ExceptSnoc(keys[..n], keys[n], a);
      ExceptSnoc(Except(keys[..n], a), keys[n], b);
      ExceptSnoc(keys[..n], keys[n], a + b);
      if keys[n] in a {
        var f, g := Except(keys[..n], a), Except(keys[..n], a + b);
        assert f + [] == f && g + [] == g;
      }
    }
  }

  lemma {:induction false} ExceptShrinks(keys: seq<Key>, key: Key)
    requires key in keys
    ensures |Except(keys, {key})| < |keys|
  {
    var n := |keys| - 1;
    if keys[n] == key {
    } else {
      assert keys == keys[..n] + [keys[n]];
      ExceptShrinks(keys[..n], key);
    }
  }

  /** Drop every occurrence of a key and keep the others in their order. */
  method RemoveBotCandidate(candidates: seq<Key>, key: Key) returns (next: seq<Key>)
    ensures next == Except(candidates, {key})
  {
    hide Except;
    next := [];
    ExceptEmpty({key});
    for i := 0 to |candidates|
      invariant next == Except(candidates[..i], {key})
    {
      ExceptSnoc(candidates[..i], candidates[i], {key});
      assert candidates[..i + 1] == candidates[..i] + [candidates[i]];
      if candidates[i] != key {
        next := next + [candidates[i]];
      }
    }
    assert candidates[..|candidates|] == candidates;
  }

  // ---- What the routing asks for -----------------------------------------------------------------

  function Conns(slots: map<Key, Slot>, k: Key): int { if k in slots then slots[k].connections else 0 }

  predicate Ready(slots: map<Key, Slot>, k: Key) { k in slots && slots[k].ready }

  function Turn(idx: map<nat, nat>, n: nat): nat { if n in idx then idx[n] else 0 }

  /** `key` is the one to pick among `clients`: the next in turn for that many clients, or the first of those with the
      fewest connections. */
  ghost predicate Routes(strategy: Strategy, slots: map<Key, Slot>, idx: map<nat, nat>, clients: seq<Key>, key: Key)
  {
    match strategy
    case RoundRobin => Turn(idx, |clients|) < |clients| && key == clients[Turn(idx, |clients|)]
    case LeastConnections =>
      exists i :: 0 <= i < |clients| && clients[i] == key && forall j :: 0 <= j < |clients| ==>
        && Conns(slots, key) <= Conns(slots, clients[j])
        && (j < i ==> Conns(slots, key) < Conns(slots, clients[j]))
  }

  function SetOf(keys: seq<Key>): set<Key> { set k | k in keys }

  /** Each pick is the one the routing asks for among the candidates not picked before. */
  ghost predicate Routed(strategy: Strategy, slots: map<Key, Slot>, idx: map<nat, nat>, all: seq<Key>, picks: seq<Key>)
  {
    forall p :: 0 <= p < |picks| ==> Routes(strategy, slots, idx, Except(all, SetOf(picks[..p])), picks[p])
  }

  lemma {:induction false} RoutedSnoc(strategy: Strategy, slots: map<Key, Slot>, idx: map<nat, nat>, all: seq<Key>,
                                      picks: seq<Key>, key: Key)
    requires Routed(strategy, slots, idx, all, picks)
    requires Routes(strategy, slots, idx, Except(all, SetOf(picks)), key)
    ensures Routed(strategy, slots, idx, all, picks + [key])
  {
    hide Routes, Except;
    var more := picks + [key];
    forall p | 0 <= p < |more|
      ensures Routes(strategy, slots, idx, Except(all, SetOf(more[..p])), more[p])
    {
      assert p < |picks| ==> more[..p] == picks[..p];
      assert more[..|picks|] == picks;
    }
  }

  /** The routing looks at nothing but the connections. */
  lemma {:induction false} RoutedByConns(strategy: Strategy, s: map<Key, Slot>, t: map<Key, Slot>, idx: map<nat, nat>,
                                         all: seq<Key>, picks: seq<Key>)
    requires Routed(strategy, s, idx, all, picks) && forall k :: Conns(s, k) == Conns(t, k)
    ensures Routed(strategy, t, idx, all, picks)
  {
    hide Except, Conns;
    forall p | 0 <= p < |picks|
      ensures Routes(strategy, t, idx, Except(all, SetOf(picks[..p])), picks[p])
    {
      assert Routes(strategy, s, idx, Except(all, SetOf(picks[..p])), picks[p]);
    }
  }

  /** Picking in turn consults a different counter each time, because fewer candidates are left. */
  lemma {:induction false} RoutesSameTurn(strategy: Strategy, slots: map<Key, Slot>, idx: map<nat, nat>, idx': map<nat, nat>,
                                          clients: seq<Key>, key: Key)
    requires Routes(strategy, slots, idx, clients, key) && Turn(idx, |clients|) == Turn(idx', |clients|)
    ensures Routes(strategy, slots, idx', clients, key)
  {
  }

  /** The list picked from at some point had `n` candidates. */
  ghost predicate PickedFrom(all: seq<Key>, picks: seq<Key>, n: nat)
  {
    exists p :: 0 <= p < |picks| && |Except(all, SetOf(picks[..p]))| == n
  }

  /** Exactly the counters consulted have moved on by one. */
  ghost predicate Advanced(strategy: Strategy, idx: map<nat, nat>, idx': map<nat, nat>, all: seq<Key>, picks: seq<Key>)
  {
    forall n: nat {:trigger Turn(idx', n)} ::
      Turn(idx', n) == if strategy.RoundRobin? && n > 0 && PickedFrom(all, picks, n) then (Turn(idx, n) + 1) % n else Turn(idx, n)
  }

  lemma {:induction false} PickedFromSnoc(all: seq<Key>, picks: seq<Key>, key: Key, n: nat)
    ensures PickedFrom(all, picks + [key], n) <==> PickedFrom(all, picks, n) || |Except(all, SetOf(picks))| == n
  {
    hide Except, SetOf;
    var more := picks + [key];
    assert more[..|picks|] == picks;
    assert forall p :: 0 <= p < |picks| ==> more[..p] == picks[..p];
    if PickedFrom(all, picks, n) {
      var p :| 0 <= p < |picks| && |Except(all, SetOf(picks[..p]))| == n;
      assert |Except(all, SetOf(more[..p]))| == n;
    } else if |Except(all, SetOf(picks))| == n {
      assert |Except(all, SetOf(more[..|picks|]))| == n;
    }
  }

  lemma {:induction false} AdvancedSnoc(strategy: Strategy, idx: map<nat, nat>, mid: map<nat, nat>, idx': map<nat, nat>,
                                        all: seq<Key>, picks: seq<Key>, key: Key)
    requires Advanced(strategy, idx, mid, all, picks)
    requires var n := |Except(all, SetOf(picks))|;
             && n > 0 && Turn(mid, n) == Turn(idx, n)
             && forall m: nat :: Turn(idx', m) == if strategy.RoundRobin? && m == n then (Turn(mid, m) + 1) % m else Turn(mid, m)
    ensures Advanced(strategy, idx, idx', all, picks + [key])
  {
    hide Except, SetOf, Turn, PickedFrom;
    forall n: nat
      ensures PickedFrom(all, picks + [key], n) <==> PickedFrom(all, picks, n) || |Except(all, SetOf(picks))| == n
    {
      PickedFromSnoc(all, picks, key, n);
    }
  }

  lemma {:induction false} NothingAdvanced(strategy: Strategy, idx: map<nat, nat>, all: seq<Key>)
    ensures Advanced(strategy, idx, idx, all, [])
  {
  }

  lemma {:induction false} NothingRouted(strategy: Strategy, slots: map<Key, Slot>, idx: map<nat, nat>, all: seq<Key>)
    ensures Routed(strategy, slots, idx, all, [])
  {
  }

  /** What is left of the candidates is exactly what has not failed. */
  lemma {:induction false} LeftOver(all: seq<Key>, failed: seq<Key>)
    ensures forall k :: k in Except(all, SetOf(failed)) <==> k in all && k !in failed
    ensures failed == [] ==> Except(all, SetOf(failed)) == all
  {
    if failed == [] {
      ExceptNothing(all, SetOf(failed));
    }
  }

  lemma {:induction false} DropOne(all: seq<Key>, failed: seq<Key>, key: Key)
    ensures Except(Except(all, SetOf(failed)), {key}) == Except(all, SetOf(failed + [key]))
  {
    ExceptTwice(all, SetOf(failed), {key});
    assert SetOf(failed) + {key} == SetOf(failed + [key]);
  }

  class ClientPool {
    const strategy: Strategy
    const idleTimeout: int
    const limits: Limits
    var slots: map<Key, Slot>
    var circuits: map<Key, Circuit>
    var totalConns: int
    var currentIdx: map<nat, nat>
    var now: int                     // the clock
    ghost var gets: multiset<Key>      // clients handed out so far
    ghost var releases: multiset<Key>  // releases of keys that had a slot

    /** The ledger: a slot counts its gets minus its releases, keys without a slot are balanced, and the pool's
        total is the sum over the slots. */
    ghost predicate Ledger()
      reads this`slots, this`totalConns, this`gets, this`releases
    {
      && (forall k :: k in slots ==> slots[k].connections + releases[k] == gets[k])
      && (forall k :: k !in slots ==> gets[k] == releases[k])
      && totalConns == Total(slots) && totalConns + |releases| == |gets|
    }

    /** Nobody has released more than they got. */
    ghost predicate Disciplined()
      reads this`gets, this`releases
    {
      forall k :: releases[k] <= gets[k]
    }

    ghost predicate Valid()
      reads this
    {
      && Ledger() && now > 0
      && (forall k :: k in circuits ==> k.Bot? && Counted(circuits[k], limits))
      && (forall n :: n in currentIdx ==> n > 0 && currentIdx[n] < n)
    }

    ghost function CircuitOf(k: Key): Circuit
      reads this`circuits
    {
      if k in circuits then circuits[k] else CLOSED
    }

    constructor (strategy: Strategy, idleTimeout: int, limits: Limits)
      ensures Valid() && Disciplined() && slots == map[] && gets == releases == multiset{}
    {
      this.strategy, this.idleTimeout, this.limits := strategy, idleTimeout, limits;
      slots, circuits, totalConns, currentIdx, now := map[], map[], 0, map[], 1;
      gets, releases := multiset{}, multiset{};
    }

    /** Time passes. */
    method Tick()
      requires Valid()
      modifies this`now
      ensures Valid() && now >= old(now)
    {
      var d: int := *;
      now := now + Max(d, 0);
    }

    /** Count one more connection on a slot, if the key has one. */
    method Acquire(key: Key)
      requires Ledger()
      modifies this`slots, this`totalConns, this`gets
      ensures Ledger() && slots.Keys == old(slots.Keys)
      ensures slots == if key in old(slots)
                       then old(slots)[key := old(slots[key]).(connections := old(slots[key]).connections + 1, lastUsed := now)]
                       else old(slots)
      ensures gets == if key in old(slots) then old(gets) + multiset{key} else old(gets)
    {
      hide Total;
      if key in slots {
        var s := slots[key].(connections := slots[key].connections + 1, lastUsed := now);
        TotalSet(slots, key, s);
        slots := slots[key := s];
        totalConns := totalConns + 1;
        gets := gets + multiset{key};
      }
    }

    /** Give a connection back. A release by a holder keeps every count non-negative. */
    method Release(key: Key)
      requires Valid()
      modifies this`slots, this`totalConns, this`releases
      ensures Valid() && slots.Keys == old(slots.Keys)
      ensures releases == old(releases) + (if key in slots then multiset{key} else multiset{})
      ensures slots == if key in old(slots)
                       then old(slots)[key := old(slots[key]).(connections := old(slots[key]).connections - 1, lastUsed := now)]
                       else old(slots)
      ensures old(Disciplined()) && (key in slots ==> old(releases)[key] < gets[key]) ==> Disciplined()
    {
      hide Total, Counted;
      if key in slots {
        var s := slots[key].(connections := slots[key].connections - 1, lastUsed := now);
        TotalSet(slots, key, s);
        slots := slots[key := s];
        totalConns := totalConns - 1;
        releases := releases + multiset{key};
      }
    }

    /** Create the slot of a key if there is none yet. */
    method Reserve(key: Key)
      requires Ledger()
      modifies this`slots
      ensures Ledger() && slots.Keys == old(slots.Keys) + {key}
      ensures slots == if key in old(slots) then old(slots) else old(slots)[key := Slot(0, now, false)]
    {
      hide Total;
      if key !in slots {
        TotalSet(slots, key, Slot(0, now, false));
        slots := slots[key := Slot(0, now, false)];
      }
    }

    method MarkReady(key: Key)
      requires Ledger() && key in slots
      modifies this`slots
      ensures Ledger() && slots == old(slots)[key := old(slots[key]).(lastUsed := now, ready := true)]
    {
      hide Total;
      var s := slots[key].(lastUsed := now, ready := true);
      TotalSet(slots, key, s);
      slots := slots[key := s];
    }

    /** A successful start marks the slot ready and takes a connection on it. */
    method StartClient(key: Key)
      requires Ledger() && key in slots
      modifies this`slots, this`totalConns, this`gets
      ensures Ledger() && slots.Keys == old(slots.Keys) && gets == old(gets) + multiset{key}
      ensures slots == old(slots)[key := Slot(old(slots[key]).connections + 1, now, true)]
    {
      hide Ledger;
      MarkReady(key);
      Acquire(key);
      assert slots == old(slots)[key := Slot(old(slots[key]).connections + 1, now, true)];
    }

    /** A client for a user's session: reused when ready, else created. Handed out exactly when it was ready or its
        creation succeeds. */
    method GetUserClient(id: int, created: bool) returns (r: Answer)
      requires Valid()
      modifies this`slots, this`totalConns, this`gets
      ensures Valid() && User(id) in slots && old(slots.Keys) <= slots.Keys
      ensures r == if Ready(old(slots), User(id)) || created then Client(User(id)) else Refused
      ensures r.Client? ==> gets == old(gets) + multiset{r.key} && slots[r.key].ready
      ensures forall k :: k in old(slots) && (k != User(id) || r.Refused?) ==> slots[k] == old(slots[k])
      ensures r.Refused? ==> gets == old(gets)
    {
      var key := User(id);
      Reserve(key);
      if slots[key].ready {
        Acquire(key);
        return Client(key);
      }
      if !created {
        return Refused;
      }
      StartClient(key);
      return Client(key);
    }

    /** Remove one slot and its circuit if it has no connection and has been idle for too long. */
    method SweepSlot(k: Key)
      requires Valid() && k in slots
      modifies this`slots, this`circuits
      ensures Valid()
      ensures if old(slots[k]).connections == 0 && now - old(slots[k]).lastUsed > idleTimeout
              then slots == old(slots) - {k} && circuits == old(circuits) - {k} && gets[k] == releases[k]
              else slots == old(slots) && circuits == old(circuits)
    {
      hide Total, Counted;
      if slots[k].connections == 0 && now - slots[k].lastUsed > idleTimeout {
        TotalWithout(slots, k);
        slots := slots - {k};
        circuits := circuits - {k};
      }
    }

    /** Remove the slots that have been idle for long: never one that still has a holder. */
    method Sweep()
      requires Valid()
      modifies this`slots, this`circuits
      ensures Valid() && slots.Keys <= old(slots.Keys)
      ensures forall k :: k in slots ==> slots[k] == old(slots[k])
      ensures forall k :: k in old(slots.Keys) - slots.Keys ==>
                gets[k] == releases[k] && old(slots[k]).connections == 0 && now - old(slots[k]).lastUsed > idleTimeout
      ensures circuits == old(circuits) - (old(slots.Keys) - slots.Keys)
      ensures forall k :: k in slots ==> slots[k].connections != 0 || now - slots[k].lastUsed <= idleTimeout
    {
      hide Ledger, Counted;
      var todo := slots.Keys;
      while todo != {}
        invariant Valid() && todo <= slots.Keys <= old(slots.Keys)
        invariant forall k :: k in slots ==> slots[k] == old(slots[k])
        invariant forall k :: k in old(slots.Keys) - slots.Keys ==>
                    gets[k] == releases[k] && old(slots[k]).connections == 0 && now - old(slots[k]).lastUsed > idleTimeout
        invariant circuits == old(circuits) - (old(slots.Keys) - slots.Keys)
        invariant forall k :: k in slots && k !in todo ==> slots[k].connections != 0 || now - slots[k].lastUsed <= idleTimeout
        decreases |todo|
      {
        var k :| k in todo;
        SweepSlot(k);
        todo := todo - {k};
      }
    }

    // ---- Circuit breaker -----------------------------------------------------------------

    method IsBotClientAvailable(key: Key, at: int) returns (available: bool)
      requires Valid()
      modifies this`circuits
      ensures Valid()
      ensures key.Bot? ==> circuits == old(circuits)[key := Checked(old(CircuitOf(key)), at)]
      ensures key.User? ==> circuits == old(circuits)
      ensures available == (key.Bot? ==> !Open(old(CircuitOf(key)), at))
    {
      if key.User? {
        return true;
      }
      var c := if key in circuits then circuits[key] else CLOSED;
      AfterCounted(c, Check(at), limits);
      available := c.openUntil == 0 || at >= c.openUntil;
      circuits := circuits[key := Checked(c, at)];
    }

    method RecordBotSuccess(key: Key)
      requires Valid()
      modifies this`circuits
      ensures Valid()
      ensures circuits == if key.Bot? then old(circuits)[key := Succeeded(old(CircuitOf(key)), now)] else old(circuits)
      ensures key.Bot? && !Open(old(CircuitOf(key)), now) ==> AtRest(CircuitOf(key))
      ensures key.Bot? && Open(old(CircuitOf(key)), now) ==>
                && CircuitOf(key).openUntil == old(CircuitOf(key)).openUntil
                && CircuitOf(key).consecutiveFailures == old(CircuitOf(key)).consecutiveFailures
    {
      if key.Bot? {
        var c := if key in circuits then circuits[key] else CLOSED;
        AfterCounted(c, Success(now), limits);
        circuits := circuits[key := Succeeded(c, now)];
      }
    }

    method RecordBotFailure(key: Key, canceled: bool)
      requires Valid()
      modifies this`circuits
      ensures Valid()
      ensures circuits == if key.Bot? && !canceled then old(circuits)[key := Failed(old(CircuitOf(key)), now, false, limits)]
                          else old(circuits)
    {
      if key.Bot? && !canceled {
        var c := if key in circuits then circuits[key] else CLOSED;
        AfterCounted(c, Failure(now, false), limits);
        circuits := circuits[key := Failed(c, now, false, limits)];
      }
    }

    // ---- Routing -----------------------------------------------------------------------------

    /** Round robin takes the clients in turn; otherwise the first with the fewest connections. */
    method SelectClient(clients: seq<Key>) returns (i: nat)
      requires Valid() && clients != [] && forall k :: k in clients ==> k in slots
      modifies this`currentIdx
      ensures Valid() && i < |clients|
      ensures strategy.LeastConnections? ==> currentIdx == old(currentIdx)
      ensures strategy.LeastConnections? ==>
                forall j :: 0 <= j < |clients| ==>
                  && slots[clients[i]].connections <= slots[clients[j]].connections
                  && (j < i ==> slots[clients[i]].connections < slots[clients[j]].connections)
      ensures strategy.RoundRobin? ==>
                && i == (if |clients| in old(currentIdx) then old(currentIdx)[|clients|] else 0)
                && currentIdx == old(currentIdx)[|clients| := (i + 1) % |clients|]
      ensures Routes(strategy, slots, old(currentIdx), clients, clients[i])
    {
      var n := |clients|;
      if strategy.RoundRobin? {
        i := if n in currentIdx then currentIdx[n] else 0;
        currentIdx := currentIdx[n := (i + 1) % n];
        return;
      }
      i := 0;
      for j := 1 to n
        invariant i < n && i < j
        invariant forall m :: 0 <= m < j ==>
                    && slots[clients[i]].connections <= slots[clients[m]].connections
                    && (m < i ==> slots[clients[i]].connections < slots[clients[m]].connections)
      {
        if slots[clients[j]].connections < slots[clients[i]].connections {
          i := j;
        }
      }
    }

    /** The keys whose circuit is open at the given moment. */
    ghost function OpenKeys(keys: seq<Key>, at: int): set<Key>
      reads this`circuits
    {
      set k | k in keys && Open(CircuitOf(k), at)
    }

    /** The candidates whose circuit is not open at the given moment, in their order. */
    method Available(keys: seq<Key>, at: int) returns (candidates: seq<Key>)
      requires Valid() && forall k :: k in keys ==> k.Bot?
      modifies this`circuits
      ensures Valid()
      ensures candidates == Except(keys, old(OpenKeys(keys, at)))
      ensures forall k :: CircuitOf(k).totalFailures == old(CircuitOf(k)).totalFailures
      ensures forall k :: old(CircuitOf(k)).openUntil == 0 ==> CircuitOf(k).openUntil == 0
    {
      hide Except, Ledger;
      ghost var out := OpenKeys(keys, at);
      candidates := [];
      ExceptEmpty(out);
      for i := 0 to |keys|
        invariant Valid()
        invariant forall k :: Open(CircuitOf(k), at) == Open(old(CircuitOf(k)), at)
        invariant forall k :: CircuitOf(k).totalFailures == old(CircuitOf(k)).totalFailures
        invariant forall k :: old(CircuitOf(k)).openUntil == 0 ==> CircuitOf(k).openUntil == 0
        invariant candidates == Except(keys[..i], out)
      {
        ExceptSnoc(keys[..i], keys[i], out);
        assert keys[..i + 1] == keys[..i] + [keys[i]];
        var available := IsBotClientAvailable(keys[i], at);
        if available {
          candidates := candidates + [keys[i]];
        }
      }
      assert keys[..|keys|] == keys;
    }

    /** One attempt on a candidate: it is handed out if it is ready, or if its creation succeeds; a creation that fails
        is recorded against the bot unless it was cancelled. */
    method TryOne(key: Key, create: Key -> Creation) returns (ok: bool)
      requires Valid() && key in slots
      modifies this`slots, this`totalConns, this`gets, this`now, this`circuits
      ensures Valid() && slots.Keys == old(slots.Keys)
      ensures ok <==> old(slots[key]).ready || create(key).Created?
      ensures gets == old(gets) + (if ok then multiset{key} else multiset{})
      ensures !ok ==> slots == old(slots)
      ensures ok ==> slots[key].ready && forall k :: k in slots && k != key ==> slots[k] == old(slots[k])
      ensures circuits == if ok || create(key).CreateCanceled? || key.User? then old(circuits)
                          else old(circuits)[key := Failed(old(CircuitOf(key)), now, false, limits)]
      ensures forall k :: CircuitOf(k).totalFailures
                == old(CircuitOf(k)).totalFailures + (if k == key && key.Bot? && !ok && create(key).CreateFailed? then 1 else 0)
      ensures forall k :: CircuitOf(k).openUntil == old(CircuitOf(k)).openUntil || (k == key && !ok)
    {
      hide Ledger, Counted;
      if slots[key].ready {
        Acquire(key);
        return true;
      }
      Tick();
      if create(key).Created? {
        StartClient(key);
        return true;
      }
      RecordBotFailure(key, create(key).CreateCanceled?);
      assert gets == gets + multiset{};
      return false;
    }

    /** Pick a candidate and try it. */
    method TryNext(candidates: seq<Key>, create: Key -> Creation) returns (key: Key, ok: bool)
      requires Valid() && candidates != [] && forall k :: k in candidates ==> k in slots && k.Bot?
      modifies this`slots, this`totalConns, this`gets, this`now, this`circuits, this`currentIdx
      ensures Valid() && slots.Keys == old(slots.Keys) && key in candidates
      ensures Routes(strategy, old(slots), old(currentIdx), candidates, key)
      ensures forall m: nat :: Turn(currentIdx, m) == if strategy.RoundRobin? && m == |candidates|
                then (Turn(old(currentIdx), m) + 1) % m else Turn(old(currentIdx), m)
      ensures forall k :: CircuitOf(k).openUntil == old(CircuitOf(k)).openUntil || (k == key && !ok)
      ensures ok <==> old(slots[key]).ready || create(key).Created?
      ensures gets == old(gets) + (if ok then multiset{key} else multiset{})
      ensures !ok ==> slots == old(slots)
      ensures ok ==> slots[key].ready && forall k :: k in slots && k != key ==> slots[k] == old(slots[k])
      ensures forall k :: CircuitOf(k).totalFailures
                == old(CircuitOf(k)).totalFailures + (if k == key && !ok && create(key).CreateFailed? then 1 else 0)
    {
      hide Ledger, Counted, Failed, CircuitOf, Routes;
      var i := SelectClient(candidates);
      key := candidates[i];
      ok := TryOne(key, create);
    }

    /** Try the candidates in the order the routing picks, dropping each one that fails. The one handed out, and each
        that failed before it, was the one the routing asks for among those left; a candidate fails exactly when it was
        not ready and its creation does not succeed. */
    method TryCandidates(all: seq<Key>, create: Key -> Creation) returns (r: Answer, failed: seq<Key>)
      requires Valid() && forall k :: k in all ==> k in slots && k.Bot?
      modifies this`slots, this`totalConns, this`gets, this`now, this`circuits, this`currentIdx
      ensures Valid() && slots.Keys == old(slots.Keys)
      ensures r.Client? ==> r.key in all && slots[r.key].ready && gets == old(gets) + multiset{r.key}
      ensures r.Client? ==> r.key !in failed && (Ready(old(slots), r.key) || create(r.key).Created?)
      ensures r.Refused? ==> gets == old(gets) && forall k :: k in all ==> k in failed
      ensures Distinct(failed)
      ensures forall k :: k in failed ==> k in all && !Ready(old(slots), k) && !create(k).Created?
      ensures var picks := failed + if r.Client? then [r.key] else [];
              && Routed(strategy, old(slots), old(currentIdx), all, picks)
              && Advanced(strategy, old(currentIdx), currentIdx, all, picks)
      ensures forall k :: CircuitOf(k).openUntil == old(CircuitOf(k)).openUntil || k in failed
      ensures forall k :: k in slots && r != Client(k) ==> slots[k] == old(slots[k])
      ensures forall k :: CircuitOf(k).totalFailures
                == old(CircuitOf(k)).totalFailures + (if k in failed && create(k).CreateFailed? then 1 else 0)
    {
      hide Valid, Except, CircuitOf, Distinct, Routed, Routes, SetOf, Turn, Advanced;
      failed := [];
      NothingDistinct();
      NothingRouted(strategy, slots, currentIdx, all);
      NothingAdvanced(strategy, currentIdx, all);
      var candidates := all;
      LeftOver(all, failed);
      while candidates != []
        invariant Valid() && slots == old(slots) && gets == old(gets)
        invariant candidates == Except(all, SetOf(failed))
        invariant forall n: nat :: n <= |candidates| ==> Turn(currentIdx, n) == Turn(old(currentIdx), n)
        invariant Distinct(failed)
        invariant forall k :: k in failed ==> k in all && !Ready(old(slots), k) && !create(k).Created?
        invariant Routed(strategy, old(slots), old(currentIdx), all, failed)
        invariant Advanced(strategy, old(currentIdx), currentIdx, all, failed)
        invariant forall k :: CircuitOf(k).openUntil == old(CircuitOf(k)).openUntil || k in failed
        invariant forall k :: CircuitOf(k).totalFailures
                    == old(CircuitOf(k)).totalFailures + (if k in failed && create(k).CreateFailed? then 1 else 0)
        decreases |candidates|
      {
        LeftOver(all, failed);
        ghost var idx := currentIdx;
        var key, ok := TryNext(candidates, create);
        RoutesSameTurn(strategy, old(slots), idx, old(currentIdx), candidates, key);
        RoutedSnoc(strategy, old(slots), old(currentIdx), all, failed, key);
        AdvancedSnoc(strategy, old(currentIdx), idx, currentIdx, all, failed, key);
        if ok {
          return Client(key), failed;
        }
        assert gets == old(gets) + multiset{} == old(gets);
        DropOne(all, failed, key);
        ExceptShrinks(candidates, key);
        DistinctSnoc(failed, key);
        failed := failed + [key];
        candidates := RemoveBotCandidate(candidates, key);
      }
      LeftOver(all, failed);
      assert failed + [] == failed;
      r := Refused;
    }

    method ReserveAll(keys: seq<Key>)
      requires Ledger()
      modifies this`slots
      ensures Ledger() && old(slots.Keys) <= slots.Keys && forall k :: k in keys ==> k in slots
      ensures forall k :: k in old(slots) ==> slots[k] == old(slots[k])
      ensures forall k :: Conns(slots, k) == Conns(old(slots), k) && Ready(slots, k) == Ready(old(slots), k)
    {
      for i := 0 to |keys|
        invariant Ledger() && old(slots.Keys) <= slots.Keys && forall k :: k in keys[..i] ==> k in slots
        invariant forall k :: k in old(slots) ==> slots[k] == old(slots[k])
        invariant forall k :: Conns(slots, k) == Conns(old(slots), k) && Ready(slots, k) == Ready(old(slots), k)
      {
        Reserve(keys[i]);
      }
    }

    /** A bot client for a user. The bots whose circuit is open at entry are left out; among the others each pick is the
        one the routing asks for among those not yet tried. A client is handed out exactly when some closed-circuit bot
        is ready or can be created; exactly the failed attempts that were not cancelled count as failures of their
        bots. */
    method GetBotClient(userId: int, bots: seq<string>, create: Key -> Creation) returns (r: Answer, failed: seq<Key>)
      requires Valid()
      modifies this
      ensures Valid() && releases == old(releases) && old(slots.Keys) <= slots.Keys
      ensures r.Client? ==>
                && r.key in BotKeys(userId, bots) && !Open(old(CircuitOf(r.key)), old(now))
                && r.key in slots && slots[r.key].ready && gets == old(gets) + multiset{r.key}
      ensures r.Refused? ==> gets == old(gets)
      ensures r.Client? <==>
              exists k :: && k in BotKeys(userId, bots) && !Open(old(CircuitOf(k)), old(now))
                          && (Ready(old(slots), k) || create(k).Created?)
      ensures Distinct(failed)
      ensures forall k :: k in failed ==>
                && k in BotKeys(userId, bots) && !Open(old(CircuitOf(k)), old(now))
                && !Ready(old(slots), k) && !create(k).Created?
      ensures var keys := BotKeys(userId, bots);
              var picks := failed + if r.Client? then [r.key] else [];
              var closed := Except(keys, old(OpenKeys(keys, now)));
              && Routed(strategy, old(slots), old(currentIdx), closed, picks)
              && Advanced(strategy, old(currentIdx), currentIdx, closed, picks)
      ensures forall k :: old(CircuitOf(k)).openUntil == 0 && k !in failed ==> CircuitOf(k).openUntil == 0
      ensures forall k :: k in old(slots) && r != Client(k) ==> slots[k] == old(slots[k])
      ensures forall k: Key :: k.Bot? ==>
                CircuitOf(k).totalFailures
                == old(CircuitOf(k)).totalFailures + (if k in failed && create(k).CreateFailed? then 1 else 0)
    {
      hide Ledger, Counted, BotKeys, Open, Except, Routed, Conns, Ready, Distinct, Advanced;
      var keys := BotKeys(userId, bots);
      ReserveAll(keys);
      BotKeysAreBots(userId, bots);
      ghost var reserved := slots;
      var candidates := Available(keys, now);
      r, failed := TryCandidates(candidates, create);
      RoutedByConns(strategy, reserved, old(slots), old(currentIdx), candidates, failed + if r.Client? then [r.key] else []);
    }
  }

  // ---- Whole runs --------------------------------------------------------------------------

  datatype Call =
    | GetUser(id: int, created: bool)
    | GetBot(user: int, bots: seq<string>, create: Key -> Creation)
    | GiveBack(key: Key)
    | ReportSuccess(key: Key)
    | ReportFailure(key: Key, canceled: bool)
    | SweepIdle
    | Wait

  lemma {:induction false} HeldHasSlot(p: ClientPool, key: Key, held: multiset<Key>)
    requires p.Ledger() && p.gets == p.releases + held && key in held
    ensures key in p.slots
  {
    assert p.gets[key] == p.releases[key] + held[key];
  }

  method ServeOne(p: ClientPool, call: Call, held: multiset<Key>) returns (now: multiset<Key>)
    requires p.Valid() && p.gets == p.releases + held
    modifies p
    ensures p.Valid() && p.gets == p.releases + now
  {
    hide ClientPool.Ledger, Counted, Open;
    now := held;
    match call {
      case GetUser(id, created) =>
        var r := p.GetUserClient(id, created);
        now := if r.Client? then held + multiset{r.key} else held;
      case GetBot(user, bots, create) =>
        var r, failed := p.GetBotClient(user, bots, create);
        now := if r.Client? then held + multiset{r.key} else held;
      case GiveBack(key) =>
        if key in held {
          HeldHasSlot(p, key, held);
          p.Release(key);
          now := held - multiset{key};
        }
      case ReportSuccess(key) => p.RecordBotSuccess(key);
      case ReportFailure(key, canceled) => p.RecordBotFailure(key, canceled);
      case SweepIdle => p.Sweep();
      case Wait => p.Tick();
    }
  }

  /** Any run of whole calls in which callers give back only what they hold: each slot counts exactly the clients held
      under its key, the total is the number of clients held, nothing is ever negative, and the slot of a held client is
      still there. */
  method ServeCalls(p: ClientPool, script: seq<Call>) returns (held: multiset<Key>)
    requires p.Valid() && p.gets == p.releases
    modifies p
    ensures p.Valid() && p.totalConns == |held| && p.totalConns == Total(p.slots)
    ensures forall k :: k in p.slots ==> p.slots[k].connections == held[k]
    ensures forall k :: k in held ==> k in p.slots
  {
    hide Counted, Total;
    held := multiset{};
    for i := 0 to |script|
      invariant p.Valid() && p.gets == p.releases + held
    {
      held := ServeOne(p, script[i], held);
    }
    assert |p.gets| == |p.releases| + |held|;
  }

  lemma {:induction false} TurnBelow(p: ClientPool, n: nat)
    requires p.Valid() && n > 0
    ensures (Turn(p.currentIdx, n) + 0) % n == Turn(p.currentIdx, n)
  {
    DivModUnique(Turn(p.currentIdx, n), 0, Turn(p.currentIdx, n), n);
  }

  lemma {:induction false} NextInTurn(idx: map<nat, nat>, idx': map<nat, nat>, slots: map<Key, Slot>, keys: seq<Key>, key: Key)
    requires keys != [] && Routed(RoundRobin, slots, idx, keys, [key]) && Advanced(RoundRobin, idx, idx', keys, [key])
    ensures Turn(idx, |keys|) < |keys| && key == keys[Turn(idx, |keys|)]
    ensures Turn(idx', |keys|) == (Turn(idx, |keys|) + 1) % |keys|
  {
    hide Except;
    var picks := [key];
    assert picks[..0] == [] && SetOf(picks[..0]) == {};
    ExceptNothing(keys, {});
    assert Routes(RoundRobin, slots, idx, Except(keys, SetOf(picks[..0])), picks[0]);
    assert PickedFrom(keys, picks, |keys|);
  }

  lemma {:induction false} ModSucc(t: nat, i: nat, n: nat)
    requires n > 0
    ensures ((t + i) % n + 1) % n == (t + i + 1) % n
  {
    DivMod(t + i, n);
    var q, r := (t + i) / n, (t + i) % n;
    MulDiff(q + 1, 1, n);
    if r + 1 == n {
      DivModUnique(t + i + 1, q + 1, 0, n);
      DivModUnique(n, 1, 0, n);
    } else {
      DivModUnique(t + i + 1, q, r + 1, n);
      DivModUnique(r + 1, 0, r + 1, n);
    }
  }

  lemma {:induction false} HasFirst(keys: seq<Key>)
    ensures keys != [] ==> exists k :: k in keys
  {
    assert keys != [] ==> keys[0] in keys;
  }

  /** All these bots are ready and their circuits closed. */
  ghost predicate AllServing(p: ClientPool, keys: seq<Key>)
    reads p
  {
    forall k :: k in keys ==> Ready(p.slots, k) && p.CircuitOf(k).openUntil == 0
  }

  /** With all bots serving, one call hands out the next in turn. */
  method ServeNext(p: ClientPool, user: int, bots: seq<string>, create: Key -> Creation) returns (key: Key)
    requires p.Valid() && p.strategy.RoundRobin? && bots != [] && AllServing(p, BotKeys(user, bots))
    modifies p
    ensures p.Valid() && AllServing(p, BotKeys(user, bots))
    ensures var n := |bots|;
            && Turn(old(p.currentIdx), n) < n && key == BotKeys(user, bots)[Turn(old(p.currentIdx), n)]
            && Turn(p.currentIdx, n) == (Turn(old(p.currentIdx), n) + 1) % n
  {
    hide ClientPool.Valid, Except, Routed, Advanced, Distinct, Turn;
    ghost var keys := BotKeys(user, bots);
    ghost var idx, slots := p.currentIdx, p.slots;
    assert p.OpenKeys(keys, p.now) == {};
    ExceptNothing(keys, {});
    assert keys[0] in keys;
    var r, failed := p.GetBotClient(user, bots, create);
    HasFirst(failed);
    assert failed + [r.key] == [r.key];
    NextInTurn(idx, p.currentIdx, slots, keys, r.key);
    key := r.key;
  }

  /** Round robin is fair: while all bots are ready and their circuits closed, consecutive calls hand them out strictly
      in turn. */
  method ServeInTurn(p: ClientPool, user: int, bots: seq<string>, create: Key -> Creation, m: nat) returns (served: seq<Key>)
    requires p.Valid() && p.strategy.RoundRobin? && bots != [] && AllServing(p, BotKeys(user, bots))
    modifies p
    ensures |served| == m
    ensures forall i :: 0 <= i < m ==>
              served[i] == BotKeys(user, bots)[(Turn(old(p.currentIdx), |bots|) + i) % |bots|]
  {
    hide ClientPool.Valid, AllServing, Turn, BotKeys;
    ghost var keys, n := BotKeys(user, bots), |bots|;
    ghost var t := Turn(p.currentIdx, n);
    served := [];
    TurnBelow(p, n);
    for i := 0 to m
      invariant p.Valid() && |served| == i && AllServing(p, keys)
      invariant Turn(p.currentIdx, n) == (t + i) % n
      invariant forall j :: 0 <= j < i ==> served[j] == keys[(t + j) % n]
    {
      var key := ServeNext(p, user, bots, create);
      ModSucc(t, i, n);
      served := served + [key];
    }
  }
}
