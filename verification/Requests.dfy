/**
 Which records the run phase can ask for. A key chooser draws some keys and not
 others, so the results here range over all runs whose draws come from a given
 set of keys: when every request finds its record, and when no key number handed
 out during the run phase is ever requested. Both conditions are exact.
 */
module Requests {
  import opened Fnv
  import opened Generators
  import opened Workload
  import opened Phases

  /** The keys a chooser can draw. */
  ghost function Drawables(k: KeyChooser): (keys: iset<uint64>)
    requires k.Uniform? || k.c.Valid()
  {
    iset key: uint64 | CanDraw(k, key)
  }

  /** A key the rejection loop can end with. */
  ghost predicate Requestable(c: Setup, keys: iset<uint64>, k: uint64)
  {
    k in keys && k <= LastKey(c)
  }

  ghost predicate DrawsIn(keys: iset<uint64>, a: Action)
  {
    a.DrawKey? ==> a.draw in keys
  }

  /** A run of the run phase whose draws all come from `keys`. */
  ghost predicate RunsFrom(c: Setup, keys: iset<uint64>, s: System, run: seq<Action>)
  {
    Runs(c, false, s, run) && forall i :: 0 <= i < |run| ==> DrawsIn(keys, run[i])
  }

  lemma RunsFromFirst(c: Setup, keys: iset<uint64>, s: System, next: System, a: Action, run: seq<Action>)
    requires Enabled(false, s, a) && DrawsIn(keys, a) && next == After(c, false, s, a) && RunsFrom(c, keys, next, run)
    ensures RunsFrom(c, keys, s, [a] + run)
    ensures Final(c, false, s, [a] + run) == Final(c, false, next, run)
  {
    ActionFirst(c, false, s, next, a, run);
  }

  lemma RunsFromAppend(c: Setup, keys: iset<uint64>, s: System, a: seq<Action>, b: seq<Action>)
    requires RunsFrom(c, keys, s, a) && RunsFrom(c, keys, Final(c, false, s, a), b)
    ensures RunsFrom(c, keys, s, a + b)
    ensures Final(c, false, s, a + b) == Final(c, false, Final(c, false, s, a), b)
  {
    RunsAppend(c, false, s, a, b);
  }

  // ---------------------------------------------------------------- two transactions

  /** Picking a read, drawing key number `k` and reading it. */
  function ReadOf(t: nat, k: uint64): (run: seq<Action>)
  {
    [ChooseOp(t, READ)] + ([DrawKey(t, k)] + [ExecRequest(t, [], 0.0)])
  }

  lemma ReadRuns(c: Setup, keys: iset<uint64>, s: System, t: nat, k: uint64)
    requires t < |s.threads| && s.threads[t].pc.Idle? && s.threads[t].left > 0 && Requestable(c, keys, k)
    ensures RunsFrom(c, keys, s, ReadOf(t, k))
    ensures var s' := Final(c, false, s, ReadOf(t, k));
            s'.requests == s.requests + [(k, c.index(k) in s.store)] && s'.issued == s.issued
  {
    var a0, a1, a2 := ChooseOp(t, READ), DrawKey(t, k), ExecRequest(t, [], 0.0);
    var s1 := After(c, false, s, a0);
    var s2 := After(c, false, s1, a1);
    var s3 := After(c, false, s2, a2);
    assert s2.threads[t].pc == Requesting(READ, k);
    LastAction(c, false, s2, s3, a2);
    RunsFromFirst(c, keys, s1, s2, a1, [a2]);
    RunsFromFirst(c, keys, s, s1, a0, [a1] + [a2]);
  }

  /** Picking an insert, taking the next key number and inserting. */
  function InsertBy(t: nat): (run: seq<Action>)
  {
    [ChooseOp(t, INSERT)] + ([FetchKey(t)] + [ExecInsert(t, [], 0.0)])
  }

  lemma InsertRuns(c: Setup, keys: iset<uint64>, s: System, t: nat)
    requires t < |s.threads| && s.threads[t].pc.Idle? && s.threads[t].left > 0
    ensures RunsFrom(c, keys, s, InsertBy(t))
    ensures var s' := Final(c, false, s, InsertBy(t));
            && s'.requests == s.requests && s'.issued == s.issued + [s.counter]
            && s'.counter == (s.counter + 1) % TWO64
            && |s'.threads| == |s.threads| && s'.threads == s.threads[t := s'.threads[t]]
            && s'.threads[t].pc.Idle? && s'.threads[t].left == s.threads[t].left - 1
  {
    var a0, a1, a2 := ChooseOp(t, INSERT), FetchKey(t), ExecInsert(t, [], 0.0);
    var s1 := After(c, false, s, a0);
    var s2 := After(c, false, s1, a1);
    var s3 := After(c, false, s2, a2);
    assert s2.threads[t].pc == Inserting(s.counter);
    LastAction(c, false, s2, s3, a2);
    RunsFromFirst(c, keys, s1, s2, a1, [a2]);
    RunsFromFirst(c, keys, s, s1, a0, [a1] + [a2]);
  }

  // ---------------------------------------------------------------- when every request is found

  ghost predicate AllFound(s: System)
  {
    forall i :: 0 <= i < |s.requests| ==> s.requests[i].1
  }

  /** Whatever the run phase does, every request finds its record. */
  ghost predicate EveryRequestFound(c: Setup, keys: iset<uint64>, r: System)
  {
    forall run: seq<Action> :: RunsFrom(c, keys, r, run) ==> AllFound(Final(c, false, r, run))
  }

  /** Requesting threads hold keys the chooser can draw. */
  ghost predicate HoldsRequestable(c: Setup, keys: iset<uint64>, s: System)
  {
    forall t :: 0 <= t < |s.threads| && s.threads[t].pc.Requesting? ==> Requestable(c, keys, s.threads[t].pc.key)
  }

  lemma HoldsStep(c: Setup, keys: iset<uint64>, s: System, a: Action)
    requires HoldsRequestable(c, keys, s) && Enabled(false, s, a) && DrawsIn(keys, a)
    ensures HoldsRequestable(c, keys, After(c, false, s, a))
  {
    var s' := After(c, false, s, a);
    assert |s'.threads| == |s.threads|;
    forall t | 0 <= t < |s'.threads| && s'.threads[t].pc.Requesting?
      ensures Requestable(c, keys, s'.threads[t].pc.key)
    {
      if t != a.t { assert s'.threads[t] == s.threads[t]; }
    }
  }

  /** No step removes a record. */
  lemma RecordsKept(c: Setup, s: System, a: Action)
    requires Enabled(false, s, a)
    ensures s.store.Keys <= After(c, false, s, a).store.Keys
  {
  }

  ghost predicate AllStored(c: Setup, keys: iset<uint64>, s: System)
  {
    forall k: uint64 :: Requestable(c, keys, k) ==> c.index(k) in s.store
  }

  lemma {:induction false} FoundRun(c: Setup, keys: iset<uint64>, s: System, run: seq<Action>)
    requires AllStored(c, keys, s) && HoldsRequestable(c, keys, s) && AllFound(s) && RunsFrom(c, keys, s, run)
    ensures AllFound(Final(c, false, s, run))
    decreases |run|
  {
    if run == [] {
    } else {
      var a := run[0];
      assert DrawsIn(keys, a);
      HoldsStep(c, keys, s, a);
      RecordsKept(c, s, a);
      FoundStep(c, keys, s, a);
      FoundRun(c, keys, After(c, false, s, a), run[1..]);
    }
  }

  lemma FoundStep(c: Setup, keys: iset<uint64>, s: System, a: Action)
    requires AllStored(c, keys, s) && HoldsRequestable(c, keys, s) && AllFound(s) && Enabled(false, s, a)
    ensures AllFound(After(c, false, s, a))
  {
    if a.ExecRequest? { assert Requestable(c, keys, s.threads[a.t].pc.key); }
  }

  /** A finished load. */
  ghost predicate Loads(c: Setup, load: seq<Action>)
    requires c.Valid()
  {
    Runs(c, true, LoadStart(c), load) && Finished(Final(c, true, LoadStart(c), load))
  }

  /** The state in which the run phase starts. */
  ghost function Between(c: Setup, load: seq<Action>, opCount: nat): (r: System)
    requires c.Valid() && Loads(c, load)
  {
    RunStart(c, Final(c, true, LoadStart(c), load), opCount)
  }

  /** The number was handed out and its record inserted while loading. */
  predicate LoadedNumber(c: Setup, k: uint64)
    requires c.Valid()
  {
    c.start <= k < c.start + LoadCount(c)
  }

  lemma LoadedIff(c: Setup, load: seq<Action>, k: uint64)
    requires c.Valid() && Loads(c, load) && k <= LastKey(c)
    ensures c.index(k) in Final(c, true, LoadStart(c), load).store <==> LoadedNumber(c, k)
  {
    LoadComplete(c, load);
    StoredNumber(c, Final(c, true, LoadStart(c), load), k);
  }

  lemma StoredNumber(c: Setup, s: System, k: uint64)
    requires c.Valid() && k <= LastKey(c) && StoreMatches(c, s.store, s.stored)
    requires forall l: uint64 :: l in s.stored <==> LoadedNumber(c, l)
    ensures c.index(k) in s.store <==> LoadedNumber(c, k)
  {
    if c.recordCount == 0 {
      assert s.stored == {};
    } else {
      StoredIff(c, s.store, s.stored, k);
    }
  }

  /**
   Every request of every run is found if and only if no thread has anything to do, or every key the
   rejection loop can end with was loaded.
   */
  lemma EveryRequestFoundIff(c: Setup, load: seq<Action>, opCount: nat, keys: iset<uint64>)
    requires c.Valid() && Loads(c, load)
    ensures EveryRequestFound(c, keys, Between(c, load, opCount)) <==>
            opCount < c.threads || forall k: uint64 :: Requestable(c, keys, k) ==> LoadedNumber(c, k)
  {
    var r := Between(c, load, opCount);
    if opCount < c.threads {
      IdleRuns(c, keys, r, opCount);
    } else if k: uint64 :| Requestable(c, keys, k) && !LoadedNumber(c, k) {
      var run := MissingRun(c, load, opCount, keys, k);
      assert Final(c, false, r, run).requests[0] == (k, false);
      assert !AllFound(Final(c, false, r, run));
    } else {
      forall run: seq<Action> | RunsFrom(c, keys, r, run)
        ensures AllFound(Final(c, false, r, run))
      {
        AllLoadedStored(c, load, opCount, keys);
        FoundRun(c, keys, r, run);
      }
    }
  }

  lemma AllLoadedStored(c: Setup, load: seq<Action>, opCount: nat, keys: iset<uint64>)
    requires c.Valid() && Loads(c, load)
    requires forall k: uint64 :: Requestable(c, keys, k) ==> LoadedNumber(c, k)
    ensures AllStored(c, keys, Between(c, load, opCount))
  {
    forall k: uint64 | Requestable(c, keys, k)
      ensures c.index(k) in Between(c, load, opCount).store
    {
      LoadedIff(c, load, k);
    }
  }

  /** With fewer operations than threads no thread does anything. */
  lemma IdleRuns(c: Setup, keys: iset<uint64>, r: System, opCount: nat)
    requires c.Valid() && opCount < c.threads
    requires r.threads == Phases.Fresh(c.threads, opCount / c.threads) && r.requests == []
    ensures EveryRequestFound(c, keys, r)
  {
    forall run: seq<Action> | RunsFrom(c, keys, r, run)
      ensures AllFound(Final(c, false, r, run))
    {
      assert run == [];
    }
  }

  /** A key that can be drawn and was not loaded is missed by the first read of it. */
  lemma MissingRun(c: Setup, load: seq<Action>, opCount: nat, keys: iset<uint64>, k: uint64)
    returns (run: seq<Action>)
    requires c.Valid() && Loads(c, load) && opCount >= c.threads
    requires Requestable(c, keys, k) && !LoadedNumber(c, k)
    ensures RunsFrom(c, keys, Between(c, load, opCount), run)
    ensures Final(c, false, Between(c, load, opCount), run).requests == [(k, false)]
  {
    LoadedIff(c, load, k);
    AtLeast(opCount, c.threads, 1);
    run := ReadOf(0, k);
    ReadRuns(c, keys, Between(c, load, opCount), 0, k);
  }

  lemma AtLeast(total: nat, threads: nat, n: nat)
    requires threads >= 1 && total >= n * threads
    ensures total / threads >= n
  {
    var q := total / threads;
    if q < n {
      MulLess(q + 1, n, threads);
    }
  }

  lemma MulLess(a: nat, b: nat, m: nat)
    requires a <= b
    ensures a * m <= b * m
  {
  }

  // ---------------------------------------------------------------- when numbers of the run phase are requested

  /** No number handed out after the first `n` has been requested. */
  ghost predicate NoneRequested(n: nat, s: System)
  {
    forall i, j :: n <= i < |s.issued| && 0 <= j < |s.requests| ==> s.issued[i] != s.requests[j].0
  }

  /** Whatever the run phase does, it requests no number that it hands out itself. */
  ghost predicate NewNumbersNeverRequested(c: Setup, keys: iset<uint64>, r: System)
  {
    forall run: seq<Action> :: RunsFrom(c, keys, r, run) ==> NoneRequested(|r.issued|, Final(c, false, r, run))
  }

  /** Inserts a thread may still start: an operation holding a key number is no longer free. */
  function Free(th: Thread): (n: nat)
  {
    if (th.pc.Inserting? || th.pc.Requesting?) && th.left > 0 then th.left - 1 else th.left
  }

  function SumFree(threads: seq<Thread>): (n: nat)
  {
    if threads == [] then 0 else Free(threads[0]) + SumFree(threads[1..])
  }

  lemma {:induction false} SumFreeUpdate(threads: seq<Thread>, t: nat, th: Thread)
    requires t < |threads|
    ensures SumFree(threads[t := th]) == SumFree(threads) - Free(threads[t]) + Free(th)
  {
    if t == 0 {
      assert threads[t := th][1..] == threads[1..];
    } else {
      SumFreeUpdate(threads[1..], t - 1, th);
      assert threads[t := th][1..] == threads[1..][t - 1 := th];
    }
  }

  lemma {:induction false} SumFreeAll(threads: seq<Thread>, n: nat)
    requires forall t :: 0 <= t < |threads| ==> Free(threads[t]) == n
    ensures SumFree(threads) == |threads| * n
  {
    if threads == [] {
    } else {
      SumFreeAll(threads[1..], n);
    }
  }

  /** Some request has been made, or is about to be. */
  ghost predicate Asked(s: System)
  {
    s.requests != [] || exists t :: 0 <= t < |s.threads| && s.threads[t].pc.Requesting?
  }

  /** Numbers handed out, operations still free, and one operation for the first request share a budget. */
  ghost predicate Budget(s: System, limit: nat)
  {
    && s.counter + SumFree(s.threads) <= limit
    && (Asked(s) ==> s.counter + SumFree(s.threads) < limit)
    && (forall t :: 0 <= t < |s.threads| && !s.threads[t].pc.Idle? ==> s.threads[t].left > 0)
  }

  lemma BudgetStep(c: Setup, s: System, a: Action, limit: nat)
    requires Budget(s, limit) && Enabled(false, s, a) && limit < TWO64
    ensures Budget(After(c, false, s, a), limit)
    ensures a.FetchKey? ==> s.counter + 1 <= limit
  {
    var s' := After(c, false, s, a);
    SumFreeUpdate(s.threads, a.t, s'.threads[a.t]);
    assert s'.threads == s.threads[a.t := s'.threads[a.t]];
    FreeCounts(s.threads, a.t);
    AskedStep(c, s, a);
  }

  lemma {:induction false} FreeCounts(threads: seq<Thread>, t: nat)
    requires t < |threads|
    ensures SumFree(threads) >= Free(threads[t])
  {
    if t == 0 {
    } else {
      FreeCounts(threads[1..], t - 1);
    }
  }

  /** Only an accepted draw leads from not having asked to having asked. */
  lemma AskedStep(c: Setup, s: System, a: Action)
    requires Enabled(false, s, a)
    ensures Asked(After(c, false, s, a)) && !Asked(s) ==> a.DrawKey? && a.draw <= LastKey(c)
  {
    var s' := After(c, false, s, a);
    if Asked(s') && !Asked(s) && s'.requests == [] {
      var t :| 0 <= t < |s'.threads| && s'.threads[t].pc.Requesting?;
    }
  }

  /** The numbers after the first `n` are consecutive from `from`. */
  ghost predicate Issued(from: nat, n: nat, s: System)
  {
    && from <= s.counter && |s.issued| == n + (s.counter - from)
    && forall i :: n <= i < |s.issued| ==> s.issued[i] == from + (i - n)
  }

  ghost predicate RequestedIn(c: Setup, keys: iset<uint64>, s: System)
  {
    HoldsRequestable(c, keys, s) && forall j :: 0 <= j < |s.requests| ==> Requestable(c, keys, s.requests[j].0)
  }

  lemma RequestedStep(c: Setup, keys: iset<uint64>, s: System, a: Action)
    requires RequestedIn(c, keys, s) && Enabled(false, s, a) && DrawsIn(keys, a)
    ensures RequestedIn(c, keys, After(c, false, s, a))
  {
    HoldsStep(c, keys, s, a);
    if a.ExecRequest? { assert Requestable(c, keys, s.threads[a.t].pc.key); }
  }

  lemma {:induction false} BudgetRun(c: Setup, keys: iset<uint64>, s: System, run: seq<Action>, from: nat, n: nat,
                                     limit: nat)
    requires RunsFrom(c, keys, s, run) && limit < TWO64
    requires Budget(s, limit) && Issued(from, n, s) && RequestedIn(c, keys, s)
    ensures var s' := Final(c, false, s, run); Budget(s', limit) && Issued(from, n, s') && RequestedIn(c, keys, s')
    decreases |run|
  {
    if run == [] {
    } else {
      var a := run[0];
      assert DrawsIn(keys, a);
      BudgetStep(c, s, a, limit);
      RequestedStep(c, keys, s, a);
      IssuedStep(c, s, a, from, n);
      BudgetRun(c, keys, After(c, false, s, a), run[1..], from, n, limit);
    }
  }

  lemma IssuedStep(c: Setup, s: System, a: Action, from: nat, n: nat)
    requires Issued(from, n, s) && Enabled(false, s, a) && (a.FetchKey? ==> s.counter + 1 < TWO64)
    ensures Issued(from, n, After(c, false, s, a))
  {
  }

  /** From threads at rest with enough operations left, numbers up to `k` are handed out and `k` is then requested. */
  lemma {:induction false} InsertUpTo(c: Setup, keys: iset<uint64>, s: System, k: uint64) returns (run: seq<Action>)
    requires forall t :: 0 <= t < |s.threads| ==> s.threads[t].pc.Idle?
    requires s.counter <= k && k + 1 < TWO64 && k + 2 <= s.counter + SumFree(s.threads) && Requestable(c, keys, k)
    ensures RunsFrom(c, keys, s, run)
    ensures var s' := Final(c, false, s, run);
            && |s'.issued| == |s.issued| + (k + 1 - s.counter) && s'.issued[|s'.issued| - 1] == k
            && |s'.requests| >= 1 && s'.requests[|s'.requests| - 1].0 == k
    decreases k - s.counter
  {
    var t := SomeFree(s.threads);
    InsertRuns(c, keys, s, t);
    var s1 := Final(c, false, s, InsertBy(t));
    SumFreeUpdate(s.threads, t, s1.threads[t]);
    var rest;
    if s.counter == k {
      var u := SomeFree(s1.threads);
      rest := ReadOf(u, k);
      ReadRuns(c, keys, s1, u, k);
    } else {
      rest := InsertUpTo(c, keys, s1, k);
    }
    RunsFromAppend(c, keys, s, InsertBy(t), rest);
    run := InsertBy(t) + rest;
  }

  lemma {:induction false} SomeFree(threads: seq<Thread>) returns (t: nat)
    requires SumFree(threads) > 0
    ensures t < |threads| && threads[t].left > 0
  {
    if threads[0].left > 0 {
      t := 0;
    } else {
      var u := SomeFree(threads[1..]);
      t := u + 1;
    }
  }

  /** The first number of the run phase. */
  function FirstNew(c: Setup): (k: nat)
    requires c.Valid()
  {
    c.start + LoadCount(c)
  }

  /** All transactions of the run phase. */
  function Transactions(c: Setup, opCount: nat): (n: nat)
    requires c.Valid()
    ensures n <= opCount
  {
    c.threads * Quota(opCount, c.threads)
  }

  /** There are transactions enough to hand out `k` and to request it. */
  predicate InReach(c: Setup, opCount: nat, k: uint64)
    requires c.Valid()
  {
    FirstNew(c) <= k && k + 2 <= FirstNew(c) + Transactions(c, opCount)
  }

  /**
   A number handed out in the run phase is requested by some run if and only if some key that can be
   requested is in reach of its inserts.
   */
  lemma NeverRequestedIff(c: Setup, load: seq<Action>, opCount: nat, keys: iset<uint64>)
    requires c.Valid() && Loads(c, load) && opCount < 0x8000_0000
    ensures NewNumbersNeverRequested(c, keys, Between(c, load, opCount)) <==>
            forall k: uint64 :: Requestable(c, keys, k) ==> !InReach(c, opCount, k)
  {
    var r := Between(c, load, opCount);
    BetweenStart(c, load, opCount);
    if k: uint64 :| Requestable(c, keys, k) && InReach(c, opCount, k) {
      var run := InsertUpTo(c, keys, r, k);
      assert !NoneRequested(|r.issued|, Final(c, false, r, run));
    } else {
      forall run: seq<Action> | RunsFrom(c, keys, r, run)
        ensures NoneRequested(|r.issued|, Final(c, false, r, run))
      {
        var limit := FirstNew(c) + Transactions(c, opCount);
        BudgetRun(c, keys, r, run, FirstNew(c), |r.issued|, limit);
        OutOfReach(c, keys, Final(c, false, r, run), |r.issued|, opCount);
      }
    }
  }

  lemma BetweenStart(c: Setup, load: seq<Action>, opCount: nat)
    requires c.Valid() && Loads(c, load) && opCount < 0x8000_0000
    ensures var r := Between(c, load, opCount);
            && r.counter == FirstNew(c) && SumFree(r.threads) == Transactions(c, opCount)
            && r.counter + Transactions(c, opCount) < TWO32 + TWO32
            && Budget(r, FirstNew(c) + Transactions(c, opCount)) && Issued(FirstNew(c), |r.issued|, r)
  {
    LoadComplete(c, load);
    AtRest(Between(c, load, opCount), c.threads, Quota(opCount, c.threads));
  }

  lemma AtRest(s: System, threads: nat, quota: nat)
    requires s.threads == Phases.Fresh(threads, quota) && s.requests == []
    ensures SumFree(s.threads) == threads * quota
    ensures Budget(s, s.counter + threads * quota) && Issued(s.counter, |s.issued|, s)
  {
    SumFreeAll(s.threads, quota);
  }

  lemma OutOfReach(c: Setup, keys: iset<uint64>, s: System, n: nat, opCount: nat)
    requires c.Valid() && RequestedIn(c, keys, s) && Issued(FirstNew(c), n, s)
    requires Budget(s, FirstNew(c) + Transactions(c, opCount))
    requires forall k: uint64 :: Requestable(c, keys, k) ==> !InReach(c, opCount, k)
    ensures NoneRequested(n, s)
  {
    forall i, j | n <= i < |s.issued| && 0 <= j < |s.requests|
      ensures s.issued[i] != s.requests[j].0
    {
      assert Asked(s);
      assert Requestable(c, keys, s.requests[j].0) && !InReach(c, opCount, s.requests[j].0);
    }
  }

  // ---------------------------------------------------------------- the distributions a workload can have

  /** The exact condition for every request to be found, by request distribution. */
  lemma FoundByDistribution(c: Setup, load: seq<Action>, opCount: nat, k: KeyChooser, newKeys: nat)
    requires c.Valid() && Loads(c, load) && WiredFor(k, c.recordCount, newKeys)
    ensures var found := EveryRequestFound(c, Drawables(k), Between(c, load, opCount));
            var rest := c.recordCount % c.threads;
            && (k.Uniform? ==> (found <==> opCount < c.threads || rest == c.start == 0))
            && (k.Latest? ==> (found <==> opCount < c.threads || rest <= c.start <= 1))
            && (k.Zipf? ==> (found <==> opCount < c.threads || ScrambledLoaded(c, c.recordCount + newKeys)))
  {
    EveryRequestFoundIff(c, load, opCount, Drawables(k));
    if k.Zipf? {
      ZipfLoaded(c, k, newKeys);
    } else {
      RequestableRange(c, k, newKeys);
      Interval(c, Drawables(k), Lowest(k));
    }
  }

  /** Every item number is scrambled to a loaded number or beyond the last key. */
  ghost predicate ScrambledLoaded(c: Setup, items: nat)
    requires c.Valid() && items > 0
  {
    forall v: uint64 :: v < items && Scramble(0, items, v) <= LastKey(c) ==> LoadedNumber(c, Scramble(0, items, v))
  }

  ghost predicate AllLoaded(c: Setup, keys: iset<uint64>)
    requires c.Valid()
  {
    forall k: uint64 :: Requestable(c, keys, k) ==> LoadedNumber(c, k)
  }

  /** The smallest key a uniform or latest chooser draws. */
  function Lowest(k: KeyChooser): (lo: nat)
  {
    if k.Latest? then 1 else 0
  }

  lemma RequestableRange(c: Setup, k: KeyChooser, newKeys: nat)
    requires c.Valid() && WiredFor(k, c.recordCount, newKeys) && !k.Zipf?
    ensures Lowest(k) < c.recordCount
    ensures forall key: uint64 :: Requestable(c, Drawables(k), key) <==> Lowest(k) <= key < c.recordCount
  {
    forall key: uint64
      ensures Requestable(c, Drawables(k), key) <==> Lowest(k) <= key < c.recordCount
    {
      DrawnExactly(k, c.recordCount, newKeys, key);
    }
  }

  /** Keys from `lo` to the last one are loaded if and only if loading covers both ends. */
  lemma Interval(c: Setup, keys: iset<uint64>, lo: nat)
    requires c.Valid() && lo < c.recordCount
    requires forall k: uint64 :: Requestable(c, keys, k) <==> lo <= k < c.recordCount
    ensures AllLoaded(c, keys) <==> c.recordCount % c.threads <= c.start <= lo
  {
    var last: uint64 := c.recordCount - 1;
    assert Requestable(c, keys, lo) && Requestable(c, keys, last);
    assert LoadedNumber(c, last) ==> c.recordCount <= FirstNew(c);
  }

  lemma ZipfLoaded(c: Setup, k: KeyChooser, newKeys: nat)
    requires c.Valid() && WiredFor(k, c.recordCount, newKeys) && k.Zipf?
    ensures AllLoaded(c, Drawables(k)) <==> ScrambledLoaded(c, c.recordCount + newKeys)
  {
    var items := c.recordCount + newKeys;
    forall key: uint64
      ensures Requestable(c, Drawables(k), key) <==> IsScrambled(items, key) && key <= LastKey(c)
    {
      DrawnExactly(k, c.recordCount, newKeys, key);
    }
    if ScrambledLoaded(c, items) {
      forall key: uint64 | Requestable(c, Drawables(k), key)
        ensures LoadedNumber(c, key)
      {
        var v: uint64 :| v < items && key == Scramble(0, items, v);
      }
    }
    if AllLoaded(c, Drawables(k)) {
      forall v: uint64 | v < items && Scramble(0, items, v) <= LastKey(c)
        ensures LoadedNumber(c, Scramble(0, items, v))
      {
        assert IsScrambled(items, Scramble(0, items, v));
      }
    }
  }

  /**
   Uniform and latest requests, given a few transactions per thread: numbers of the run phase are
   never requested if and only if loading has already passed the record count.
   */
  lemma NeverRequestedByDistribution(c: Setup, load: seq<Action>, opCount: nat, k: KeyChooser, newKeys: nat)
    requires c.Valid() && Loads(c, load) && WiredFor(k, c.recordCount, newKeys) && !k.Zipf?
    requires 2 * c.threads <= opCount < 0x8000_0000 && (k.Latest? ==> 3 * c.threads <= opCount)
    ensures NewNumbersNeverRequested(c, Drawables(k), Between(c, load, opCount)) <==>
            c.recordCount % c.threads <= c.start
  {
    NeverRequestedIff(c, load, opCount, Drawables(k));
    RequestableRange(c, k, newKeys);
    Enough(c, opCount, Lowest(k) + 2);
    ReachIff(c, opCount, Drawables(k), Lowest(k));
  }

  lemma Enough(c: Setup, opCount: nat, n: nat)
    requires c.Valid() && n * c.threads <= opCount
    ensures Transactions(c, opCount) >= n
  {
    AtLeast(opCount, c.threads, n);
    MulLess(1, c.threads, Quota(opCount, c.threads));
  }

  lemma ReachIff(c: Setup, opCount: nat, keys: iset<uint64>, lo: nat)
    requires c.Valid() && lo < c.recordCount && lo + 2 <= Transactions(c, opCount)
    requires forall k: uint64 :: Requestable(c, keys, k) <==> lo <= k < c.recordCount
    ensures (forall k: uint64 :: Requestable(c, keys, k) ==> !InReach(c, opCount, k)) <==>
            c.recordCount % c.threads <= c.start
  {
    if FirstNew(c) < c.recordCount {
      var k: uint64 := if FirstNew(c) < lo then lo else FirstNew(c);
      assert Requestable(c, keys, k) && InReach(c, opCount, k);
    }
  }
}
