/**
 What a phase leaves behind under every interleaving: the merged histogram holds
 exactly the latencies of the operations that ended, and every loaded record
 holds the payload of the insert that carried its key number.
 */
module Outcomes {
  import opened Options
  import opened Fnv
  import opened Records
  import opened Workload
  import opened Phases
  import opened HistogramSpec
  import opened HistogramStats

  // ---------------------------------------------------------------- latencies

  /** The latency an action records: one if it ends an operation, otherwise none. */
  function Latency(loading: bool, s: System, a: Action): (d: seq<real>)
    requires Enabled(loading, s, a)
  {
    match a
    case ExecInsert(_, _, duration) => [duration]
    case ExecRequest(t, _, duration) => if s.threads[t].pc.op == READMODIFYWRITE then [] else [duration]
    case _ => []
  }

  /** The latencies of a run, in the order its operations end. */
  function Latencies(c: Setup, loading: bool, s: System, actions: seq<Action>): (d: seq<real>)
    requires Runs(c, loading, s, actions)
    decreases |actions|
  {
    if actions == [] then []
    else Latency(loading, s, actions[0]) + Latencies(c, loading, After(c, loading, s, actions[0]), actions[1..])
  }

  /** One thread recording more values adds them to what all threads have recorded. */
  lemma {:induction false} MergedUpdate(threads: seq<Thread>, t: nat, th: Thread, d: seq<real>)
    requires t < |threads| && Recorded(th.his) == Recorded(threads[t].his) + d
    ensures multiset(Recorded(MergedAll(threads[t := th]))) == multiset(Recorded(MergedAll(threads))) + multiset(d)
  {
    var n, after := |threads| - 1, threads[t := th];
    if n == 0 {
    } else {
      RecordedLast(threads);
      RecordedLast(after);
      if t == n {
        assert after[..n] == threads[..n];
      } else {
        assert after[..n] == threads[..n][t := th];
        MergedUpdate(threads[..n], t, th, d);
      }
    }
  }

  lemma RecordedLast(threads: seq<Thread>)
    requires |threads| > 1
    ensures var n := |threads| - 1;
            multiset(Recorded(MergedAll(threads))) ==
            multiset(Recorded(MergedAll(threads[..n]))) + multiset(Recorded(threads[n].his))
  {
  }

  lemma LatencyStep(c: Setup, loading: bool, s: System, a: Action)
    requires Enabled(loading, s, a)
    ensures multiset(Recorded(MergedAll(After(c, loading, s, a).threads))) ==
            multiset(Recorded(MergedAll(s.threads))) + multiset(Latency(loading, s, a))
  {
    var th := After(c, loading, s, a).threads[a.t];
    assert After(c, loading, s, a).threads == s.threads[a.t := th];
    assert Recorded(th.his) == Recorded(s.threads[a.t].his) + Latency(loading, s, a);
    MergedUpdate(s.threads, a.t, th, Latency(loading, s, a));
  }

  lemma {:induction false} LatenciesRecorded(c: Setup, loading: bool, s: System, actions: seq<Action>)
    requires Runs(c, loading, s, actions)
    ensures multiset(Recorded(MergedAll(Final(c, loading, s, actions).threads))) ==
            multiset(Recorded(MergedAll(s.threads))) + multiset(Latencies(c, loading, s, actions))
    decreases |actions|
  {
    if actions == [] {
    } else {
      LatencyStep(c, loading, s, actions[0]);
      LatenciesRecorded(c, loading, After(c, loading, s, actions[0]), actions[1..]);
    }
  }

  lemma {:induction false} NothingRecorded(threads: seq<Thread>)
    requires forall t :: 0 <= t < |threads| ==> threads[t].his == Cleared
    ensures Recorded(MergedAll(threads)) == []
  {
    if |threads| <= 1 {
    } else {
      NothingRecorded(threads[..|threads| - 1]);
    }
  }

  /** In either phase, under every interleaving: the merged histogram is that of all latencies. */
  lemma PhaseHistogram(c: Setup, loading: bool, s: System, actions: seq<Action>)
    requires Runs(c, loading, s, actions) && forall t :: 0 <= t < |s.threads| ==> s.threads[t].his == Cleared
    ensures Eval(MergedAll(Final(c, loading, s, actions).threads)) == HistOf(Latencies(c, loading, s, actions))
  {
    var merged := MergedAll(Final(c, loading, s, actions).threads);
    NothingRecorded(s.threads);
    LatenciesRecorded(c, loading, s, actions);
    EvalIsHistOf(merged);
    HistOfPermutation(Recorded(merged), Latencies(c, loading, s, actions));
  }

  /** With fewer records than threads loading records nothing, and printing its percentiles divides by zero. */
  lemma EmptyLoad(c: Setup, actions: seq<Action>, p: real)
    requires c.Valid() && c.recordCount < c.threads && Runs(c, true, LoadStart(c), actions)
    ensures Eval(MergedAll(Final(c, true, LoadStart(c), actions).threads)) == EMPTY
    ensures Percentile(Eval(MergedAll(Final(c, true, LoadStart(c), actions).threads)), p) == None
  {
    LoadTerminates(c, actions);
    NoShare(c.recordCount, c.threads);
    PhaseHistogram(c, true, LoadStart(c), actions);
    EmptyPercentile(p);
  }

  lemma NoShare(total: nat, threads: nat)
    requires total < threads
    ensures threads * Quota(total, threads) == 0
  {
  }

  // ---------------------------------------------------------------- payloads

  /** The payload carried for each key number inserted so far. */
  function WithPayload(loading: bool, s: System, a: Action, m: map<uint64, seq<string>>): (r: map<uint64, seq<string>>)
    requires Enabled(loading, s, a)
  {
    match a
    case ExecInsert(t, payload, _) => m[s.threads[t].pc.key := payload]
    case _ => m
  }

  function Payloads(c: Setup, loading: bool, s: System, actions: seq<Action>, m: map<uint64, seq<string>>)
    : (r: map<uint64, seq<string>>)
    requires Runs(c, loading, s, actions)
    decreases |actions|
  {
    if actions == [] then m
    else Payloads(c, loading, After(c, loading, s, actions[0]), actions[1..], WithPayload(loading, s, actions[0], m))
  }

  /** Each stored number has its record, made of its payload. */
  ghost predicate Holding(c: Setup, s: System, m: map<uint64, seq<string>>)
  {
    && m.Keys == s.stored
    && forall k :: k in m ==> c.index(k) in s.store && s.store[c.index(k)] == Overlay(map[], Values(m[k]))
  }

  lemma HoldingStep(c: Setup, quota: nat, limit: nat, s: System, a: Action, m: map<uint64, seq<string>>)
    requires c.Valid() && limit <= TWO32 && Inv(c, true, quota, limit, s) && Enabled(true, s, a) && Holding(c, s, m)
    ensures Holding(c, After(c, true, s, a), WithPayload(true, s, a, m))
  {
    assert ThreadOk(c, true, quota, s.threads[a.t]);
    if a.ExecInsert? {
      var k := s.threads[a.t].pc.key;
      HeldIsNew(c, s, a.t, k);
      NewIndex(c, s.store, s.stored, k);
      NewInsert(s.store, c.index(k), a.payload);
    }
  }

  lemma NewIndex(c: Setup, store: Store, stored: set<uint64>, k: uint64)
    requires c.Valid() && StoreMatches(c, store, stored) && k !in stored && k < TWO32
    requires forall l :: l in stored ==> l < TWO32
    ensures c.index(k) !in store
  {
    assert forall l :: l in stored ==> c.index(l) != c.index(k);
  }

  lemma {:induction false} HoldingRun(c: Setup, quota: nat, limit: nat, s: System, actions: seq<Action>,
                                      m: map<uint64, seq<string>>)
    requires c.Valid() && limit <= TWO32 && Inv(c, true, quota, limit, s) && Runs(c, true, s, actions)
    requires Holding(c, s, m)
    ensures Holding(c, Final(c, true, s, actions), Payloads(c, true, s, actions, m))
    decreases |actions|
  {
    if actions == [] {
    } else {
      var a := actions[0];
      StepKeepsInv(c, true, quota, limit, s, a);
      HoldingStep(c, quota, limit, s, a, m);
      HoldingRun(c, quota, limit, After(c, true, s, a), actions[1..], WithPayload(true, s, a, m));
    }
  }

  /**
   Loading, under every interleaving: when all threads have returned, each number of the range carried
   one payload, and its record consists of exactly that payload.
   */
  lemma LoadedPayloads(c: Setup, actions: seq<Action>)
    requires c.Valid() && Runs(c, true, LoadStart(c), actions)
    requires Finished(Final(c, true, LoadStart(c), actions))
    ensures var s, m := Final(c, true, LoadStart(c), actions), Payloads(c, true, LoadStart(c), actions, map[]);
            && (forall k: uint64 :: k in m <==> c.start <= k < c.start + LoadCount(c))
            && (forall k :: k in m ==>
                  c.index(k) in s.store && s.store[c.index(k)] == Overlay(map[], Values(m[k])))
  {
    LoadStartInv(c);
    LoadComplete(c, actions);
    HoldingRun(c, Quota(c.recordCount, c.threads), c.start + LoadCount(c), LoadStart(c), actions, map[]);
  }
}
