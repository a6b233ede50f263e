/**
 The step system played against the hashtable database: every database action of
 any run, of however many threads, is carried out by a method call on the object.
 */
module Playback {
  import opened Options
  import opened Fnv
  import opened KeyName
  import opened Records
  import opened HashtableDb
  import opened Workload
  import opened Phases

  /** Whether a request writes; the first call of a read-modify-write does not. */
  predicate Writes(op: Op)
  {
    op == UPDATE || op == INSERT
  }

  predicate Reads(op: Op)
  {
    op == READ || op == READMODIFYWRITE
  }

  /** The status of the database call an action makes, if it makes one. */
  function CallStatus(c: Setup, loading: bool, s: System, a: Action): (r: seq<Status>)
    requires Enabled(loading, s, a)
  {
    match a
    case ExecInsert(t, payload, _) => [Insert(s.store, c.index(s.threads[t].pc.key), Values(payload)).1]
    case ExecRequest(t, _, _) =>
      var pc := s.threads[t].pc;
      [if Reads(pc.op) && c.index(pc.key) !in s.store then NoData else Ok]
    case _ => []
  }

  function CallStatuses(c: Setup, loading: bool, s: System, actions: seq<Action>): (r: seq<Status>)
    requires Runs(c, loading, s, actions)
    decreases |actions|
  {
    if actions == [] then []
    else
      CallStatus(c, loading, s, actions[0]) +
      CallStatuses(c, loading, After(c, loading, s, actions[0]), actions[1..])
  }

  /** An operation counts as a success exactly when the call that ends it reports Ok. */
  lemma StatusCounted(c: Setup, loading: bool, s: System, a: Action)
    requires Enabled(loading, s, a)
    requires a.ExecInsert? || (a.ExecRequest? && s.threads[a.t].pc.op != READMODIFYWRITE)
    ensures After(c, loading, s, a).threads[a.t].oks ==
            s.threads[a.t].oks + if CallStatus(c, loading, s, a) == [Ok] then 1 else 0
  {
  }

  /** The action creates a missing record from pairs that repeat a field. */
  predicate Leaks(c: Setup, loading: bool, s: System, a: Action)
    requires Enabled(loading, s, a)
  {
    && a.ExecRequest? && Writes(s.threads[a.t].pc.op)
    && c.index(s.threads[a.t].pc.key) !in s.store && !Distinct(a.values)
  }

  predicate SomeLeak(c: Setup, loading: bool, s: System, actions: seq<Action>)
    requires Runs(c, loading, s, actions)
    decreases |actions|
  {
    actions != [] &&
    (Leaks(c, loading, s, actions[0]) || SomeLeak(c, loading, After(c, loading, s, actions[0]), actions[1..]))
  }

  /** With distinct names in every update, as the workload builds them, no run leaks. */
  lemma {:induction false} DistinctRunsNeverLeak(c: Setup, loading: bool, s: System, actions: seq<Action>)
    requires Runs(c, loading, s, actions)
    requires forall a :: a in actions && a.ExecRequest? ==> Distinct(a.values)
    ensures !SomeLeak(c, loading, s, actions)
    decreases |actions|
  {
    if actions == [] {
    } else {
      assert actions[0] in actions;
      DistinctRunsNeverLeak(c, loading, After(c, loading, s, actions[0]), actions[1..]);
    }
  }

  /** Whatever is written, no run leaks in which every request finds its record. */
  lemma {:induction false} InvNeverLeaks(c: Setup, loading: bool, quota: nat, limit: nat, s: System,
                                         actions: seq<Action>)
    requires c.Valid() && (loading || c.recordCount >= 1) && limit <= TWO32
    requires Inv(c, loading, quota, limit, s) && Runs(c, loading, s, actions)
    ensures !SomeLeak(c, loading, s, actions)
    decreases |actions|
  {
    if actions == [] {
    } else {
      var a := actions[0];
      assert ThreadOk(c, loading, quota, s.threads[a.t]);
      if a.ExecRequest? { RequestFindsRecord(c, s, s.threads[a.t].pc.key); }
      StepKeepsInv(c, loading, quota, limit, s, a);
      InvNeverLeaks(c, loading, quota, limit, After(c, loading, s, a), actions[1..]);
    }
  }

  /** What the database calls of an action make of the store. */
  function StoreAfter(c: Setup, store: Store, pc: Pc, a: Action): (r: Store)
    requires (a.ExecInsert? ==> pc.Inserting?) && (a.ExecRequest? ==> pc.Requesting?)
  {
    match a
    case ExecInsert(_, payload, _) => Insert(store, c.index(pc.key), Values(payload)).0
    case ExecRequest(_, values, _) =>
      if Writes(pc.op) then Update(store, c.index(pc.key), values) else store
    case _ => store
  }

  lemma StoreAfterIs(c: Setup, loading: bool, s: System, a: Action)
    requires Enabled(loading, s, a)
    ensures After(c, loading, s, a).store == StoreAfter(c, s.store, s.threads[a.t].pc, a)
  {
  }

  /** One action against the database. */
  method PlayOne(db: HashtableDB, w: Naming, c: Setup, loading: bool, s: System, a: Action)
    returns (statuses: seq<Status>)
    requires db.Valid() && c.index == Indexer(w) && Enabled(loading, s, a) && db.Contents() == s.store
    modifies db
    ensures db.Valid() && db.Contents() == StoreAfter(c, s.store, s.threads[a.t].pc, a)
    ensures statuses == CallStatus(c, loading, s, a)
    ensures old(db.Garbage()) <= db.Garbage()
    ensures db.Garbage() == old(db.Garbage()) <==> !Leaks(c, loading, s, a)
  {
    match a
    case ExecInsert(t, payload, _) =>
      assert c.index(s.threads[t].pc.key) == Index(w, s.threads[t].pc.key);
      var status := PlayInsert(db, w, s.threads[t].pc.key, payload);
      statuses := [status];
    case ExecRequest(t, values, _) =>
      assert c.index(s.threads[t].pc.key) == Index(w, s.threads[t].pc.key);
      var status := PlayRequest(db, w, s.threads[t].pc.op, s.threads[t].pc.key, values);
      statuses := [status];
    case _ =>
      statuses := [];
  }

  method PlayInsert(db: HashtableDB, w: Naming, k: uint64, payload: seq<string>) returns (status: Status)
    requires db.Valid()
    modifies db
    ensures db.Valid() && db.Garbage() == old(db.Garbage())
    ensures (db.Contents(), status) == Insert(old(db.Contents()), Index(w, k), Values(payload))
  {
    var values := BuildValues(payload);
    status := db.Insert(w.table, BuildKeyName(w.ordered, w.padding, k), values);
  }

  method PlayRequest(db: HashtableDB, w: Naming, op: Op, k: uint64, values: seq<Pair>) returns (status: Status)
    requires db.Valid()
    modifies db
    ensures db.Valid() && old(db.Garbage()) <= db.Garbage()
    ensures db.Contents() == if Writes(op) then Update(old(db.Contents()), Index(w, k), values) else old(db.Contents())
    ensures status == if Reads(op) && Index(w, k) !in old(db.Contents()) then NoData else Ok
    ensures db.Garbage() == old(db.Garbage()) <==>
            !(Writes(op) && Index(w, k) !in old(db.Contents()) && !Distinct(values))
  {
    var key := BuildKeyName(w.ordered, w.padding, k);
    if Reads(op) {
      var s, _ := db.Read(w.table, key, None, []);
      status := s;
    } else if op == SCAN {
      var iter := db.IterationOrder();
      var s, _, _ := db.Scan(w.table, key, 1, None, iter);
      status := s;
    } else {
      status := db.Update(w.table, key, values);
    }
  }

  /** The run has been played from `s0` up to `s`, with `rest` to come. */
  ghost predicate Played(c: Setup, loading: bool, s0: System, actions: seq<Action>, s: System, rest: seq<Action>,
                         statuses: seq<Status>, leaked: bool)
    requires Runs(c, loading, s0, actions)
  {
    && Runs(c, loading, s, rest)
    && Final(c, loading, s0, actions) == Final(c, loading, s, rest)
    && CallStatuses(c, loading, s0, actions) == statuses + CallStatuses(c, loading, s, rest)
    && (SomeLeak(c, loading, s0, actions) <==> leaked || SomeLeak(c, loading, s, rest))
  }

  lemma PlayedStep(c: Setup, loading: bool, s0: System, actions: seq<Action>, s: System, rest: seq<Action>,
                   statuses: seq<Status>, leaked: bool)
    requires Runs(c, loading, s0, actions) && Played(c, loading, s0, actions, s, rest, statuses, leaked) && rest != []
    ensures Enabled(loading, s, rest[0])
    ensures Played(c, loading, s0, actions, After(c, loading, s, rest[0]), rest[1..],
                   statuses + CallStatus(c, loading, s, rest[0]), leaked || Leaks(c, loading, s, rest[0]))
  {
    var a, tail := rest[0], rest[1..];
    var s' := After(c, loading, s, a);
    Associative(statuses, CallStatus(c, loading, s, a), CallStatuses(c, loading, s', tail));
  }

  lemma Associative(x: seq<Status>, y: seq<Status>, z: seq<Status>)
    ensures x + (y + z) == (x + y) + z
  {
  }

  /**
   Any run of either phase, played against the database: the contents end as the step system says, every
   call reports the status it says, and garbage grows exactly when some update creates a missing record
   from repeated names.
   */
  method Play(db: HashtableDB, w: Naming, c: Setup, loading: bool, s0: System, actions: seq<Action>)
    returns (statuses: seq<Status>)
    requires db.Valid() && c.index == Indexer(w) && db.Contents() == s0.store && Runs(c, loading, s0, actions)
    modifies db
    ensures db.Valid() && db.Contents() == Final(c, loading, s0, actions).store
    ensures statuses == CallStatuses(c, loading, s0, actions)
    ensures old(db.Garbage()) <= db.Garbage()
    ensures db.Garbage() == old(db.Garbage()) <==> !SomeLeak(c, loading, s0, actions)
  {
    var s := s0;
    statuses := [];
    ghost var leaked := false;
    assert actions[0..] == actions;
    assert statuses + CallStatuses(c, loading, s0, actions) == CallStatuses(c, loading, s0, actions);
    for i := 0 to |actions|
      invariant db.Valid() && db.Contents() == s.store
      invariant Played(c, loading, s0, actions, s, actions[i..], statuses, leaked)
      invariant old(db.Garbage()) <= db.Garbage() && (db.Garbage() == old(db.Garbage()) <==> !leaked)
    {
      ghost var rest := actions[i..];
      assert rest[0] == actions[i] && rest[1..] == actions[i + 1..];
      PlayedStep(c, loading, s0, actions, s, rest, statuses, leaked);
      var more := PlayOne(db, w, c, loading, s, actions[i]);
      statuses := statuses + more;
      StoreAfterIs(c, loading, s, actions[i]);
      leaked := leaked || Leaks(c, loading, s, actions[i]);
      s := After(c, loading, s, actions[i]);
    }
  }
}
