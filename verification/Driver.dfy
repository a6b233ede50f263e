/**
 The sequential pieces of `ycsbc.cc`: the loop of one client thread and the
 collection of the per-thread results after a phase.
 */
module Driver {
  import opened Options
  import opened Fnv
  import opened CStrings
  import opened Records
  import opened HashtableDb
  import opened Generators
  import opened Workload
  import opened Phases
  import opened Clients
  import opened HistogramSpec
  import opened Histograms

  // ---------------------------------------------------------------- the loop of one client thread

  /** One round of the loop: the draw of the operation, all other draws, and the time it took. */
  datatype Job = Job(u: real, draws: Draws, duration: real)

  /** What the rounds of a client thread depend on. */
  datatype Terms = Terms(loading: bool, index: uint64 -> string, writeAll: bool, last: uint64,
                         values: seq<(Op, real)>, sum: real)

  /** The state after some rounds; `running` ends with a round whose draws settle on nothing. */
  datatype Served = Served(store: Store, counter: uint64, oks: nat, times: seq<real>, running: bool)

  function Counted(s: Served, store: Store, counter: uint64, ok: bool, duration: real): (r: Served)
  {
    Served(store, counter, s.oks + (if ok then 1 else 0), s.times + [duration], s.running)
  }

  /** What one client call reports, and the store and key counter it leaves; None if its draws settle on nothing. */
  function Call(p: Terms, store: Store, counter: uint64, job: Job): (r: (Option<bool>, Store, uint64))
  {
    if p.loading then
      var (store', status) := Insert(store, p.index(counter), Values(job.draws.payload));
      (Some(status == Ok), store', (counter + 1) % TWO64)
    else
      match Ends(p.values, p.sum, job.u, store, p.index, p.writeAll, counter, p.last, job.draws)
      case (Done(ok), store', counter') => (Some(ok), store', counter')
      case (_, store', counter') => (None, store', counter')
  }

  function ServeOne(p: Terms, s: Served, job: Job): (r: Served)
  {
    match Call(p, s.store, s.counter, job)
    case (Some(ok), store, counter) => Counted(s, store, counter, ok, job.duration)
    case (None, store, counter) => s.(store := store, counter := counter, running := false)
  }

  function ServeAll(p: Terms, s: Served, jobs: seq<Job>): (r: Served)
    decreases |jobs|
  {
    if jobs == [] || !s.running then s else ServeAll(p, ServeOne(p, s, jobs[0]), jobs[1..])
  }

  ghost function TermsOf(client: Client, loading: bool): (p: Terms)
    reads client.workload.opChooser, client.workload.insertKeySequence
  {
    Terms(loading, Indexer(client.NamingOf()), client.writeAll, client.workload.insertKeySequence.Last(),
          client.workload.opChooser.values, client.workload.opChooser.sum)
  }

  /** The client call of one round: a `DoInsert` or a `DoTransaction`. */
  method CallClient(client: Client, loading: bool, job: Job) returns (ok: Option<bool>)
    requires client.Valid()
    modifies client.db, client.workload.keyGenerator, client.workload.opChooser`last
    ensures client.Valid() && client.db.Garbage() == old(client.db.Garbage())
    ensures TermsOf(client, loading) == old(TermsOf(client, loading))
    ensures Call(TermsOf(client, loading), old(client.db.Contents()), old(client.workload.keyGenerator.counter), job)
            == (ok, client.db.Contents(), client.workload.keyGenerator.counter)
  {
    if loading {
      var inserted := client.DoInsert(job.draws.payload);
      ok := Some(inserted);
    } else {
      var e := client.DoTransaction(job.u, job.draws);
      ok := if e.Done? then Some(e.ok) else None;
    }
  }

  /** `DelegateClient`: one client call per round, successes counted, every latency in the thread's histogram. */
  method DelegateClient(client: Client, his: Histogram, loading: bool, jobs: seq<Job>)
    returns (oks: nat, finished: bool)
    requires client.Valid() && his.Valid() && his.Snapshot() == EMPTY
    modifies client.db, client.workload.keyGenerator, client.workload.opChooser`last, his, his.buckets
    ensures client.Valid() && client.db.Garbage() == old(client.db.Garbage())
    ensures var s := Served(old(client.db.Contents()), old(client.workload.keyGenerator.counter), 0, [], true);
            var r := ServeAll(old(TermsOf(client, loading)), s, jobs);
            && (client.db.Contents(), client.workload.keyGenerator.counter) == (r.store, r.counter)
            && (oks, finished) == (r.oks, r.running) && his.Snapshot() == HistOf(r.times)
  {
    oks, finished := 0, true;
    ghost var terms := TermsOf(client, loading);
    ghost var s := Served(client.db.Contents(), client.workload.keyGenerator.counter, 0, [], true);
    ghost var now := s;
    var i := 0;
    assert jobs[0..] == jobs;
    while i < |jobs| && finished
      invariant 0 <= i <= |jobs| && client.Valid() && client.db.Garbage() == old(client.db.Garbage())
      invariant TermsOf(client, loading) == terms && his.Snapshot() == HistOf(now.times)
      invariant now == Served(client.db.Contents(), client.workload.keyGenerator.counter, oks, now.times, finished)
      invariant ServeAll(terms, now, jobs[i..]) == ServeAll(terms, s, jobs)
      decreases |jobs| - i
    {
      assert jobs[i..][0] == jobs[i] && jobs[i..][1..] == jobs[i + 1..];
      ghost var before := now;
      var ok := CallClient(client, loading, jobs[i]);
      now := ServeOne(terms, before, jobs[i]);
      if ok.None? {
        finished := false;
      } else {
        oks := oks + if ok.value then 1 else 0;
        his.AddFast(jobs[i].duration);
        HistOfAppend(before.times, jobs[i].duration);
      }
      i := i + 1;
    }
  }

  // ---------------------------------------------------------------- a sequential load

  function Durations(jobs: seq<Job>): (d: seq<real>)
    ensures |d| == |jobs| && forall i :: 0 <= i < |jobs| ==> d[i] == jobs[i].duration
  {
    seq(|jobs|, i requires 0 <= i < |jobs| => jobs[i].duration)
  }

  /** The record a load job leaves behind. */
  function Loads(job: Job): (r: Fields)
  {
    Overlay(map[], Values(job.draws.payload))
  }

  /** No record under the next `n` key numbers. */
  ghost predicate Vacant(index: uint64 -> string, s: Store, from: nat, n: nat)
    requires from + n <= TWO32
  {
    forall k: uint64 :: from <= k < from + n ==> index(k) !in s
  }

  lemma LoadOne(p: Terms, s: Served, job: Job, n: nat)
    requires p.loading && Injective(p.index) && 1 <= n && s.counter + n <= TWO32
    requires Vacant(p.index, s.store, s.counter, n)
    ensures ServeOne(p, s, job) ==
            Served(s.store[p.index(s.counter) := Loads(job)], s.counter + 1, s.oks + 1, s.times + [job.duration],
                   s.running)
    ensures Vacant(p.index, ServeOne(p, s, job).store, s.counter + 1, n - 1)
  {
    NewInsert(s.store, p.index(s.counter), job.draws.payload);
    assert (s.counter + 1) % TWO64 == s.counter + 1;
  }

  /** The records that load jobs leave behind, in order. */
  function AllLoads(jobs: seq<Job>): (records: seq<Fields>)
    ensures |records| == |jobs| && forall i :: 0 <= i < |jobs| ==> records[i] == Loads(jobs[i])
  {
    seq(|jobs|, i requires 0 <= i < |jobs| => Loads(jobs[i]))
  }

  /** What was in the store, and each new record under its own key number. */
  ghost predicate RecordsOf(index: uint64 -> string, s: Store, r: Store, from: nat, records: seq<Fields>)
    requires from + |records| <= TWO32
  {
    && |r| == |s| + |records|
    && (forall k :: k in s ==> k in r && r[k] == s[k])
    && (forall k: uint64 :: from <= k < from + |records| ==> index(k) in r && r[index(k)] == records[k - from])
  }

  lemma RecordsOfStep(index: uint64 -> string, s: Store, r: Store, from: nat, records: seq<Fields>)
    requires from + |records| <= TWO32 && records != [] && index(from) !in s
    requires RecordsOf(index, s[index(from) := records[0]], r, from + 1, records[1..])
    ensures RecordsOf(index, s, r, from, records)
  {
    var i := index(from);
    assert s[i := records[0]].Keys == s.Keys + {i};
    assert i in s[i := records[0]];
  }

  /** The store with the records added one after the other, under consecutive key numbers. */
  function Filled(index: uint64 -> string, s: Store, from: nat, records: seq<Fields>): (r: Store)
    requires from + |records| <= TWO32
    decreases |records|
  {
    if records == [] then s else Filled(index, s[index(from) := records[0]], from + 1, records[1..])
  }

  lemma {:induction false} FilledRecords(index: uint64 -> string, s: Store, from: nat, records: seq<Fields>)
    requires from + |records| <= TWO32 && Injective(index) && Vacant(index, s, from, |records|)
    ensures RecordsOf(index, s, Filled(index, s, from, records), from, records)
    decreases |records|
  {
    if records == [] {
    } else {
      FilledRecords(index, s[index(from) := records[0]], from + 1, records[1..]);
      RecordsOfStep(index, s, Filled(index, s, from, records), from, records);
    }
  }

  /** The state after loading, when every insert succeeds. */
  function LoadedBy(index: uint64 -> string, s: Served, jobs: seq<Job>): (r: Served)
    requires s.counter + |jobs| <= TWO32
  {
    Served(Filled(index, s.store, s.counter, AllLoads(jobs)), s.counter + |jobs|, s.oks + |jobs|,
           s.times + Durations(jobs), s.running)
  }

  lemma LoadedByFirst(index: uint64 -> string, s: Served, jobs: seq<Job>)
    requires jobs != [] && s.counter + |jobs| <= TWO32
    ensures var s1 := Served(s.store[index(s.counter) := Loads(jobs[0])], s.counter + 1, s.oks + 1,
                             s.times + [jobs[0].duration], s.running);
            LoadedBy(index, s, jobs) == LoadedBy(index, s1, jobs[1..])
  {
    TimesFirst(s.times, jobs);
    FilledFirst(index, s.store, s.counter, jobs);
  }

  /** Loading in sequence under key numbers without a record: every insert succeeds and is timed. */
  lemma {:induction false} SequentialLoad(p: Terms, s: Served, jobs: seq<Job>)
    requires p.loading && Injective(p.index) && s.running && s.counter + |jobs| <= TWO32
    requires Vacant(p.index, s.store, s.counter, |jobs|)
    ensures ServeAll(p, s, jobs) == LoadedBy(p.index, s, jobs)
    decreases |jobs|
  {
    if jobs == [] {
      assert s.times + Durations(jobs) == s.times;
    } else {
      LoadOne(p, s, jobs[0], |jobs|);
      SequentialLoad(p, ServeOne(p, s, jobs[0]), jobs[1..]);
      LoadedByFirst(p.index, s, jobs);
    }
  }

  lemma FilledFirst(index: uint64 -> string, s: Store, from: nat, jobs: seq<Job>)
    requires jobs != [] && from + |jobs| <= TWO32
    ensures Filled(index, s, from, AllLoads(jobs)) ==
            Filled(index, s[index(from) := Loads(jobs[0])], from + 1, AllLoads(jobs[1..]))
  {
    assert AllLoads(jobs)[1..] == AllLoads(jobs[1..]);
  }

  lemma TimesFirst(times: seq<real>, jobs: seq<Job>)
    requires jobs != []
    ensures times + [jobs[0].duration] + Durations(jobs[1..]) == times + Durations(jobs)
  {
  }

  /** The same from an empty database, for the names of any workload. */
  lemma FreshLoad(w: Naming, p: Terms, start: uint64, jobs: seq<Job>)
    requires NUL !in w.table && p.loading && p.index == Indexer(w)
    requires start < 0x8000_0000 && |jobs| < 0x8000_0000
    ensures var r := ServeAll(p, Served(map[], start, 0, [], true), jobs);
            && r == Served(r.store, start + |jobs|, |jobs|, Durations(jobs), true)
            && RecordsOf(Indexer(w), map[], r.store, start, AllLoads(jobs))
  {
    SetupForValid(w, 1, 0, 0);
    assert SetupFor(w, 1, 0, 0).index == p.index;
    SequentialLoad(p, Served(map[], start, 0, [], true), jobs);
    FilledRecords(p.index, map[], start, AllLoads(jobs));
    assert [] + Durations(jobs) == Durations(jobs);
  }

  /** A load by one thread into a new database, with a new workload, client and histogram. */
  method LoadFresh(p: Properties, table: string, readAll: bool, writeAll: bool, jobs: seq<Job>)
    returns (client: Client, his: Histogram, oks: nat)
    requires NUL !in table && p.insertStart < 0x8000_0000 && |jobs| < 0x8000_0000
    ensures fresh(client) && client.Valid() && his.Valid()
    ensures |client.db.Contents()| == |jobs| == oks && client.db.Garbage() == {}
    ensures RecordsOf(Indexer(Naming(table, p.ordered, p.padding)), map[], client.db.Contents(), p.insertStart,
                      AllLoads(jobs))
    ensures his.Snapshot() == HistOf(Durations(jobs))
  {
    var db := new HashtableDB();
    var workload := new CoreWorkload(p);
    client := new Client(db, workload, table, readAll, writeAll);
    his := new Histogram();
    his.Clear();
    FreshLoad(client.NamingOf(), TermsOf(client, true), p.insertStart, jobs);
    var n, _ := DelegateClient(client, his, true, jobs);
    oks := n;
  }

  // ---------------------------------------------------------------- what the rounds keep, and the step system

  /** However many rounds are served, a single-field read of any record finds nothing. */
  lemma {:induction false} ServedPlain(p: Terms, s: Served, jobs: seq<Job>, k: string, field: nat)
    requires PlainRecords(s.store)
    ensures PlainRecords(ServeAll(p, s, jobs).store)
    ensures k in ServeAll(p, s, jobs).store ==>
              Select(ServeAll(p, s, jobs).store[k], [FIELD + FieldName(field)]) == []
    decreases |jobs|
  {
    if jobs == [] || !s.running {
      if k in s.store { PlainRecordReadFindsNothing(s.store[k], field); }
    } else {
      ServeOnePlain(p, s, jobs[0]);
      ServedPlain(p, ServeOne(p, s, jobs[0]), jobs[1..], k, field);
    }
  }

  lemma ServeOnePlain(p: Terms, s: Served, job: Job)
    requires PlainRecords(s.store)
    ensures PlainRecords(ServeOne(p, s, job).store)
  {
    EffectPlain(s.store, p.index, p.writeAll, s.counter, p.last, INSERT, job.draws);
    var chosen := Choose(Weights(p.values), p.sum, Some(job.u));
    if chosen.Some? {
      EffectPlain(s.store, p.index, p.writeAll, s.counter, p.last, p.values[chosen.value].0, job.draws);
    }
  }

  /** Thread `t` of the system stands where the rounds served so far have brought it. */
  ghost predicate Matches(s: System, t: nat, v: Served, left: nat)
  {
    && s.store == v.store && s.counter == v.counter && t < |s.threads|
    && s.threads[t].pc.Idle? && s.threads[t].left == left && s.threads[t].oks == v.oks
    && Recorded(s.threads[t].his) == v.times
  }

  ghost predicate OthersKept(s: System, s': System, t: nat)
  {
    |s'.threads| == |s.threads| && forall u :: 0 <= u < |s.threads| && u != t ==> s'.threads[u] == s.threads[u]
  }

  lemma RoundIsActions(c: Setup, p: Terms, s: System, t: nat, v: Served, left: nat, job: Job)
    returns (actions: seq<Action>)
    requires p.index == c.index && (p.loading || p.last == LastKey(c)) && v.running
    requires left > 0 && Matches(s, t, v, left) && ServeOne(p, v, job).running
    ensures Runs(c, p.loading, s, actions)
    ensures var s' := Final(c, p.loading, s, actions);
            Matches(s', t, ServeOne(p, v, job), left - 1) && OthersKept(s, s', t)
  {
    if p.loading {
      InsertIsActions(c, s, t, job.draws.payload, job.duration);
      actions := [FetchKey(t)] + [ExecInsert(t, job.draws.payload, job.duration)];
    } else {
      var op := p.values[Choose(Weights(p.values), p.sum, Some(job.u)).value].0;
      var accepted := FirstAccepted(job.draws.keys, p.last);
      var i := if accepted.Some? then accepted.value else 0;
      TransactionIsActions(c, s, t, op, job.draws, i, p.writeAll, job.duration);
      actions := TransactionActions(t, op, job.draws, i, p.writeAll, job.duration);
    }
  }

  /** The whole loop of a client thread that is not interrupted is a run of the step system. */
  lemma {:induction false} ServeIsActions(c: Setup, p: Terms, s: System, t: nat, v: Served, left: nat, jobs: seq<Job>)
    returns (actions: seq<Action>)
    requires p.index == c.index && (p.loading || p.last == LastKey(c)) && v.running
    requires left >= |jobs| && Matches(s, t, v, left) && ServeAll(p, v, jobs).running
    ensures Runs(c, p.loading, s, actions)
    ensures var s' := Final(c, p.loading, s, actions);
            Matches(s', t, ServeAll(p, v, jobs), left - |jobs|) && OthersKept(s, s', t)
    decreases |jobs|
  {
    if jobs == [] {
      actions := [];
    } else {
      var v1 := ServeOne(p, v, jobs[0]);
      var first := RoundIsActions(c, p, s, t, v, left, jobs[0]);
      var s1 := Final(c, p.loading, s, first);
      var rest := ServeIsActions(c, p, s1, t, v1, left - 1, jobs[1..]);
      RunsAppend(c, p.loading, s, first, rest);
      actions := first + rest;
    }
  }

  // ---------------------------------------------------------------- collecting the results

  function Concat(values: seq<seq<real>>): (s: seq<real>)
  {
    if values == [] then [] else Concat(values[..|values| - 1]) + values[|values| - 1]
  }

  lemma ConcatNext(values: seq<seq<real>>, i: nat)
    requires i < |values|
    ensures Concat(values[..i + 1]) == Concat(values[..i]) + values[i]
  {
    assert values[..i + 1][..i] == values[..i];
  }

  /** Distinct histogram objects, each holding the values of its thread. */
  ghost predicate Separate(hs: seq<Histogram>)
  {
    forall i, j :: 0 <= i < j < |hs| ==> hs[i] != hs[j] && hs[i].buckets != hs[j].buckets
  }

  /** Merging all histograms into the first gives the histogram of everything recorded by any thread. */
  method MergeHistograms(hs: seq<Histogram>, ghost values: seq<seq<real>>)
    requires |hs| >= 1 && |values| == |hs| && Separate(hs)
    requires forall i :: 0 <= i < |hs| ==> hs[i].Valid() && hs[i].Snapshot() == HistOf(values[i])
    modifies hs[0], hs[0].buckets
    ensures hs[0].Snapshot() == HistOf(Concat(values))
    ensures forall i :: 1 <= i < |hs| ==> hs[i].Snapshot() == HistOf(values[i])
  {
    ConcatNext(values, 0);
    assert Concat(values[..0]) + values[0] == values[0];
    for i := 1 to |hs|
      invariant hs[0].Snapshot() == HistOf(Concat(values[..i]))
      invariant forall j :: 1 <= j < |hs| ==> hs[j].Snapshot() == HistOf(values[j])
    {
      assert hs[0] != hs[i] && hs[0].buckets != hs[i].buckets;
      hs[0].Merge(hs[i]);
      MergeIsConcat(Concat(values[..i]), values[i]);
      ConcatNext(values, i);
    }
    assert values[..|hs|] == values;
  }
}
