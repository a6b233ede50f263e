/**
 The load and run phases of `ycsbc.cc` as an interleaved step system. Client
 threads share the atomic key counter and the database; each action of a thread
 is one atomic access to either. Results hold for every sequence of enabled
 actions, that is, under every interleaving and every choice of random draws.
 */
module Phases {
  import opened Fnv
  import opened CStrings
  import opened Records
  import opened Workload
  import opened HistogramSpec

  /** The parameters of a run; `index` gives the record index of a key number. */
  datatype Setup = Setup(index: uint64 -> string, threads: nat, recordCount: nat, start: nat) {
    /** Already parsed parameters, where `std::stoi` yields numbers below 2^31, and names that do not collide. */
    ghost predicate Valid()
    {
      && threads >= 1 && recordCount < 0x8000_0000 && start < 0x8000_0000
      && Injective(index)
    }
  }

  /** Key numbers below 2^32 have records of their own. */
  ghost predicate Injective(index: uint64 -> string)
  {
    forall x: uint64, y: uint64 :: x < TWO32 && y < TWO32 && index(x) == index(y) ==> x == y
  }

  /** The setup of a workload with the given naming. */
  function SetupFor(w: Naming, threads: nat, recordCount: nat, start: nat): (c: Setup)
  {
    Setup(Indexer(w), threads, recordCount, start)
  }

  /** Hashed or ordered, with any padding: the names of a workload qualify. */
  lemma SetupForValid(w: Naming, threads: nat, recordCount: nat, start: nat)
    requires threads >= 1 && recordCount < 0x8000_0000 && start < 0x8000_0000 && NUL !in w.table
    ensures SetupFor(w, threads, recordCount, start).Valid()
    ensures forall k: uint64 :: SetupFor(w, threads, recordCount, start).index(k) == Index(w, k)
  {
    var c := SetupFor(w, threads, recordCount, start);
    forall x: uint64, y: uint64 | x < TWO32 && y < TWO32 && c.index(x) == c.index(y)
      ensures x == y
    {
      IndexInjective(w, x, y);
    }
  }

  // ---------------------------------------------------------------- state

  /** Where a client thread is inside `DoInsert` or `DoTransaction`. */
  datatype Pc =
    | Idle
    | Chosen(op: Op)                        // an operation has been picked
    | Inserting(key: uint64)                // holds a key number from the counter
    | Requesting(op: Op, key: uint64)       // holds an accepted key number from the chooser

  datatype Thread = Thread(left: nat, pc: Pc, oks: nat, his: Build)

  datatype System = System(
    counter: uint64,                 // key_generator_
    store: Store,                    // the database
    threads: seq<Thread>,
    issued: seq<nat>,                // history: key numbers handed out, in order
    stored: set<uint64>,             // history: key numbers whose insert has completed
    requests: seq<(uint64, bool)>)    // history: key numbers requested, and whether the record existed

  datatype Action =
    | FetchKey(t: nat)                                             // key_generator_->Next()
    | ChooseOp(t: nat, op: Op)                                     // NextOperation()
    | DrawKey(t: nat, draw: uint64)                                // one round of the rejection loop
    | ExecInsert(t: nat, payload: seq<string>, duration: real)     // BuildValues and db_.Insert
    | ExecRequest(t: nat, values: seq<Pair>, duration: real)       // db_.Read, Scan or Update

  predicate Enabled(loading: bool, s: System, a: Action)
  {
    a.t < |s.threads| &&
    var th := s.threads[a.t];
    match a
    case FetchKey(_) => if loading then th.pc.Idle? && th.left > 0 else th.pc == Chosen(INSERT)
    case ChooseOp(_, _) => !loading && th.pc.Idle? && th.left > 0
    case DrawKey(_, _) => th.pc.Chosen? && th.pc.op != INSERT
    case ExecInsert(_, _, _) => th.pc.Inserting? && th.left > 0
    case ExecRequest(_, _, _) => th.pc.Requesting? && th.left > 0
  }

  /** The end of an operation: count it and record its latency. */
  function Finish(th: Thread, ok: bool, duration: real): (r: Thread)
    requires th.left > 0
  {
    Thread(th.left - 1, Idle, th.oks + (if ok then 1 else 0), Added(th.his, duration))
  }

  /** `insert_key_sequence_.Last()`: the counter is set to the record count and never advanced. */
  function LastKey(c: Setup): (k: uint64)
  {
    (c.recordCount + TWO64 - 1) % TWO64
  }

  function After(c: Setup, loading: bool, s: System, a: Action): (r: System)
    requires Enabled(loading, s, a)
  {
    var th := s.threads[a.t];
    match a
    case FetchKey(t) =>
      s.(counter := (s.counter + 1) % TWO64, issued := s.issued + [s.counter],
         threads := s.threads[t := th.(pc := Inserting(s.counter))])
    case ChooseOp(t, op) =>
      s.(threads := s.threads[t := th.(pc := Chosen(op))])
    case DrawKey(t, draw) =>
      if draw > LastKey(c) then s
      else s.(threads := s.threads[t := th.(pc := Requesting(th.pc.op, draw))])
    case ExecInsert(t, payload, duration) =>
      var (store, status) := Insert(s.store, c.index(th.pc.key), Values(payload));
      s.(store := store, stored := s.stored + {th.pc.key},
         threads := s.threads[t := Finish(th, status == Ok, duration)])
    case ExecRequest(t, values, duration) =>
      var k := c.index(th.pc.key);
      var s' := s.(requests := s.requests + [(th.pc.key, k in s.store)]);
      match th.pc.op
      case READ => s'.(threads := s.threads[t := Finish(th, k in s.store, duration)])
      case SCAN => s'.(threads := s.threads[t := Finish(th, true, duration)])
      case READMODIFYWRITE => s'.(threads := s.threads[t := th.(pc := Requesting(UPDATE, th.pc.key))])
      case _ => s'.(store := Update(s.store, k, values), threads := s.threads[t := Finish(th, true, duration)])
  }

  predicate Runs(c: Setup, loading: bool, s: System, actions: seq<Action>)
    decreases |actions|
  {
    actions == [] ||
    (Enabled(loading, s, actions[0]) && Runs(c, loading, After(c, loading, s, actions[0]), actions[1..]))
  }

  function Final(c: Setup, loading: bool, s: System, actions: seq<Action>): (r: System)
    requires Runs(c, loading, s, actions)
    decreases |actions|
  {
    if actions == [] then s else Final(c, loading, After(c, loading, s, actions[0]), actions[1..])
  }

  /** A run prefixed by one more action. */
  lemma ActionFirst(c: Setup, loading: bool, s: System, next: System, a: Action, actions: seq<Action>)
    requires Enabled(loading, s, a) && next == After(c, loading, s, a) && Runs(c, loading, next, actions)
    ensures Runs(c, loading, s, [a] + actions)
    ensures Final(c, loading, s, [a] + actions) == Final(c, loading, next, actions)
  {
    assert ([a] + actions)[1..] == actions;
  }

  lemma LastAction(c: Setup, loading: bool, s: System, next: System, a: Action)
    requires Enabled(loading, s, a) && next == After(c, loading, s, a)
    ensures Runs(c, loading, s, [a]) && Final(c, loading, s, [a]) == next
  {
    ActionFirst(c, loading, s, next, a, []);
    assert [a] + [] == [a];
  }

  lemma {:induction false} RunsAppend(c: Setup, loading: bool, s: System, a: seq<Action>, b: seq<Action>)
    requires Runs(c, loading, s, a) && Runs(c, loading, Final(c, loading, s, a), b)
    ensures Runs(c, loading, s, a + b)
    ensures Final(c, loading, s, a + b) == Final(c, loading, Final(c, loading, s, a), b)
    decreases |a|
  {
    if a == [] {
      assert a + b == b;
    } else {
      var s1 := After(c, loading, s, a[0]);
      RunsAppend(c, loading, s1, a[1..], b);
      assert [a[0]] + (a[1..] + b) == a + b;
      ActionFirst(c, loading, s, s1, a[0], a[1..] + b);
    }
  }

  function Fresh(threads: nat, quota: nat): (r: seq<Thread>)
    ensures |r| == threads
    ensures forall t :: 0 <= t < threads ==> r[t] == Thread(quota, Idle, 0, Cleared)
  {
    seq(threads, _ => Thread(quota, Idle, 0, Cleared))
  }

  /** Before loading: each of the threads is given recordCount / threads inserts. */
  function LoadStart(c: Setup): (s: System)
    requires c.Valid()
  {
    System(c.start, map[], Fresh(c.threads, c.recordCount / c.threads), [], {}, [])
  }

  /** Between the phases: new threads with opCount / threads transactions each, same workload and database. */
  function RunStart(c: Setup, s: System, opCount: nat): (r: System)
    requires c.Valid()
  {
    s.(threads := Fresh(c.threads, opCount / c.threads), requests := [])
  }

  /** Every thread has returned. */
  predicate Finished(s: System)
  {
    forall t :: 0 <= t < |s.threads| ==> s.threads[t].left == 0 && s.threads[t].pc.Idle?
  }

  // ---------------------------------------------------------------- the invariant

  /** Inserts a thread may still start. */
  function Todo(th: Thread): (n: nat)
  {
    if th.pc.Inserting? && th.left > 0 then th.left - 1 else th.left
  }

  function SumTodo(threads: seq<Thread>): (n: nat)
  {
    if threads == [] then 0 else Todo(threads[0]) + SumTodo(threads[1..])
  }

  lemma {:induction false} SumTodoUpdate(threads: seq<Thread>, t: nat, th: Thread)
    requires t < |threads|
    ensures SumTodo(threads[t := th]) == SumTodo(threads) - Todo(threads[t]) + Todo(th)
  {
    if t > 0 {
      SumTodoUpdate(threads[1..], t - 1, th);
      assert threads[t := th][1..] == threads[1..][t - 1 := th];
    } else {
      assert threads[t := th][1..] == threads[1..];
    }
  }

  lemma {:induction false} SumTodoAll(threads: seq<Thread>, n: nat)
    requires forall t :: 0 <= t < |threads| ==> Todo(threads[t]) == n
    ensures SumTodo(threads) == |threads| * n
  {
    if threads == [] {
    } else {
      SumTodoAll(threads[1..], n);
    }
  }

  function Range(a: nat, b: nat): (r: seq<nat>)
    requires a <= b
    ensures |r| == b - a && forall i :: 0 <= i < b - a ==> r[i] == a + i
  {
    seq(b - a, i requires 0 <= i => a + i)
  }

  predicate Holds(threads: seq<Thread>, t: nat, k: uint64)
  {
    t < |threads| && threads[t].pc == Inserting(k)
  }

  /** Every number handed out is either in the database or held by exactly one thread. */
  ghost predicate Accounted(c: Setup, s: System)
  {
    && (forall k :: k in s.stored ==> c.start <= k < s.counter)
    && (forall t: nat, k: uint64 :: Holds(s.threads, t, k) ==> c.start <= k < s.counter && k !in s.stored)
    && (forall t: nat, u: nat, k: uint64 :: Holds(s.threads, t, k) && Holds(s.threads, u, k) ==> t == u)
    && (forall k: uint64 :: c.start <= k < s.counter && k !in s.stored ==> exists t :: Holds(s.threads, t, k))
  }

  /** The records are those of the stored numbers. */
  ghost predicate StoreMatches(c: Setup, store: Store, stored: set<uint64>)
  {
    forall i :: i in store <==> exists k :: k in stored && c.index(k) == i
  }

  /** Nothing has failed: every operation finished so far was counted as a success, and timed. */
  predicate ThreadOk(c: Setup, loading: bool, quota: nat, th: Thread)
  {
    && th.oks + th.left == quota && |Recorded(th.his)| + th.left == quota
    && (th.pc != Idle ==> th.left > 0)
    && (loading ==> th.pc.Idle? || th.pc.Inserting?)
    && (th.pc.Requesting? ==> th.pc.key < c.recordCount)
  }

  ghost predicate Loaded(c: Setup, s: System)
  {
    forall k: uint64 :: k < c.recordCount ==> k in s.stored
  }

  /** What every reachable state of a phase satisfies; `limit` bounds the numbers ever handed out. */
  ghost predicate Inv(c: Setup, loading: bool, quota: nat, limit: nat, s: System)
  {
    && |s.threads| == c.threads
    && c.start <= s.counter && s.issued == Range(c.start, s.counter)
    && s.counter + SumTodo(s.threads) <= limit
    && (loading ==> s.counter + SumTodo(s.threads) == limit)
    && Accounted(c, s)
    && StoreMatches(c, s.store, s.stored)
    && (forall t :: 0 <= t < |s.threads| ==> ThreadOk(c, loading, quota, s.threads[t]))
    && (!loading ==> Loaded(c, s))
    && (forall i :: 0 <= i < |s.requests| ==> s.requests[i].0 < c.recordCount && s.requests[i].1)
  }

  // ---------------------------------------------------------------- every step keeps it

  lemma FetchKeepsInv(c: Setup, loading: bool, quota: nat, limit: nat, s: System, t: nat)
    requires Inv(c, loading, quota, limit, s) && limit <= TWO32 && Enabled(loading, s, FetchKey(t))
    ensures Inv(c, loading, quota, limit, After(c, loading, s, FetchKey(t)))
  {
    var s' := After(c, loading, s, FetchKey(t));
    var th := s.threads[t].(pc := Inserting(s.counter));
    SumTodoUpdate(s.threads, t, th);
    TodoPositive(s.threads, t);
    assert s'.counter == s.counter + 1;
    assert s'.issued == Range(c.start, s'.counter);
    FetchAccounted(c, s, t, th);
  }

  lemma {:induction false} TodoPositive(threads: seq<Thread>, t: nat)
    requires t < |threads|
    ensures SumTodo(threads) >= Todo(threads[t])
  {
    if t == 0 {
    } else {
      TodoPositive(threads[1..], t - 1);
    }
  }

  lemma FetchAccounted(c: Setup, s: System, t: nat, th: Thread)
    requires Accounted(c, s) && c.start <= s.counter < TWO64 - 1 && t < |s.threads|
    requires !s.threads[t].pc.Inserting? && th.pc == Inserting(s.counter)
    ensures Accounted(c, s.(counter := s.counter + 1, threads := s.threads[t := th]))
  {
    var threads := s.threads[t := th];
    assert Holds(threads, t, s.counter);
    forall u: nat, k: uint64
      ensures Holds(threads, u, k) <==> Holds(s.threads, u, k) || (u == t && k == s.counter)
    {
    }
    forall k: uint64 | c.start <= k < s.counter && k !in s.stored
      ensures exists u :: Holds(threads, u, k)
    {
      var u :| Holds(s.threads, u, k);
      assert Holds(threads, u, k);
    }
  }

  /** A step of one thread that neither takes nor gives up a key number. */
  lemma QuietAccounted(c: Setup, s: System, t: nat, th: Thread)
    requires Accounted(c, s) && t < |s.threads|
    requires !s.threads[t].pc.Inserting? && !th.pc.Inserting?
    ensures Accounted(c, s.(threads := s.threads[t := th]))
  {
    var threads := s.threads[t := th];
    forall u: nat, k: uint64
      ensures Holds(threads, u, k) <==> Holds(s.threads, u, k)
    {
    }
    forall k: uint64 | c.start <= k < s.counter && k !in s.stored
      ensures exists u :: Holds(threads, u, k)
    {
      var u :| Holds(s.threads, u, k);
      assert Holds(threads, u, k);
    }
  }

  lemma InsertAccounted(c: Setup, s: System, t: nat, k: uint64, th: Thread)
    requires Accounted(c, s) && Holds(s.threads, t, k) && !th.pc.Inserting?
    ensures Accounted(c, s.(stored := s.stored + {k}, threads := s.threads[t := th]))
  {
    var threads := s.threads[t := th];
    forall u: nat, l: uint64
      ensures Holds(threads, u, l) <==> Holds(s.threads, u, l) && u != t
    {
    }
    forall l: uint64 | c.start <= l < s.counter && l !in s.stored + {k}
      ensures exists u :: Holds(threads, u, l)
    {
      var u :| Holds(s.threads, u, l);
      assert Holds(threads, u, l);
    }
  }

  /** A held number is new to the database, so its insert succeeds and adds exactly its record. */
  lemma InsertIsNew(c: Setup, store: Store, stored: set<uint64>, k: uint64, payload: seq<string>)
    requires c.Valid() && StoreMatches(c, store, stored) && k !in stored && k < TWO32
    requires forall l :: l in stored ==> l < TWO32
    ensures var (store', status) := Insert(store, c.index(k), Values(payload));
            status == Ok && StoreMatches(c, store', stored + {k})
  {
    var i := c.index(k);
    assert i !in store by { assert forall l :: l in stored ==> c.index(l) != i; }
    ValuesDistinct(payload);
    InsertOkIff(map[], Values(payload));
    var store' := Insert(store, i, Values(payload)).0;
    assert store'.Keys == store.Keys + {i};
    forall j
      ensures j in store' <==> exists l :: l in stored + {k} && c.index(l) == j
    {
      if j == i { assert k in stored + {k}; }
      if j in store {
        var l :| l in stored && c.index(l) == j;
        assert l in stored + {k};
      }
    }
  }

  /** The parts of the invariant put together after a step of thread `t` that leaves the counter alone. */
  lemma Assemble(c: Setup, loading: bool, quota: nat, limit: nat, s: System, s': System, t: nat, th: Thread)
    requires Inv(c, loading, quota, limit, s) && t < |s.threads|
    requires s'.threads == s.threads[t := th] && ThreadOk(c, loading, quota, th)
    requires s'.counter == s.counter && s'.issued == s.issued && s.stored <= s'.stored
    requires Todo(th) <= Todo(s.threads[t]) && (loading ==> Todo(th) == Todo(s.threads[t]))
    requires Accounted(c, s') && StoreMatches(c, s'.store, s'.stored)
    requires forall i :: 0 <= i < |s'.requests| ==> s'.requests[i].0 < c.recordCount && s'.requests[i].1
    ensures Inv(c, loading, quota, limit, s')
  {
    SumTodoUpdate(s.threads, t, th);
  }

  lemma InsertKeepsInv(c: Setup, loading: bool, quota: nat, limit: nat, s: System, a: Action)
    requires c.Valid() && Inv(c, loading, quota, limit, s) && limit <= TWO32
    requires a.ExecInsert? && Enabled(loading, s, a)
    ensures Inv(c, loading, quota, limit, After(c, loading, s, a))
  {
    var s', th := After(c, loading, s, a), s.threads[a.t];
    var k, th' := th.pc.key, Finish(th, true, a.duration);
    HeldIsNew(c, s, a.t, k);
    FinishOk(c, loading, quota, th, a.duration);
    InsertShape(c, loading, s, a);
    InsertAccounted(c, s, a.t, k, th');
    SameAccount(c, s.(stored := s'.stored, threads := s'.threads), s');
    Assemble(c, loading, quota, limit, s, s', a.t, th');
  }

  lemma HeldIsNew(c: Setup, s: System, t: nat, k: uint64)
    requires Accounted(c, s) && s.counter <= TWO32 && t < |s.threads| && s.threads[t].pc == Inserting(k)
    ensures Holds(s.threads, t, k) && k !in s.stored && k < TWO32
    ensures forall l :: l in s.stored ==> l < TWO32
  {
    assert Holds(s.threads, t, k);
  }

  lemma FinishOk(c: Setup, loading: bool, quota: nat, th: Thread, duration: real)
    requires ThreadOk(c, loading, quota, th) && th.left > 0
    ensures ThreadOk(c, loading, quota, Finish(th, true, duration))
    ensures Todo(Finish(th, true, duration)) == th.left - 1
  {
  }

  /** The insert of a held number succeeds and adds its record. */
  lemma InsertShape(c: Setup, loading: bool, s: System, a: Action)
    requires c.Valid() && a.ExecInsert? && Enabled(loading, s, a) && StoreMatches(c, s.store, s.stored)
    requires s.threads[a.t].pc.key !in s.stored && s.threads[a.t].pc.key < TWO32
    requires forall l :: l in s.stored ==> l < TWO32
    ensures var s', th := After(c, loading, s, a), s.threads[a.t];
            && s' == s.(store := s'.store, stored := s.stored + {th.pc.key},
                        threads := s.threads[a.t := Finish(th, true, a.duration)])
            && StoreMatches(c, s'.store, s'.stored)
  {
    InsertIsNew(c, s.store, s.stored, s.threads[a.t].pc.key, a.payload);
  }

  lemma SameAccount(c: Setup, s: System, s': System)
    requires Accounted(c, s) && s'.counter == s.counter && s'.stored == s.stored && s'.threads == s.threads
    ensures Accounted(c, s')
  {
  }

  lemma RequestKeepsInv(c: Setup, quota: nat, limit: nat, s: System, a: Action)
    requires c.Valid() && Inv(c, false, quota, limit, s) && limit <= TWO32
    requires a.ExecRequest? && Enabled(false, s, a)
    ensures Inv(c, false, quota, limit, After(c, false, s, a))
  {
    var s', th := After(c, false, s, a), s.threads[a.t];
    RequestFindsRecord(c, s, th.pc.key);
    RequestShape(c, quota, s, a);
    var th' := s'.threads[a.t];
    QuietAccounted(c, s, a.t, th');
    SameAccount(c, s.(threads := s'.threads), s');
    Assemble(c, false, quota, limit, s, s', a.t, th');
  }

  /** A request for a record that exists succeeds and adds or removes no record. */
  lemma RequestShape(c: Setup, quota: nat, s: System, a: Action)
    requires a.ExecRequest? && Enabled(false, s, a) && ThreadOk(c, false, quota, s.threads[a.t])
    requires c.index(s.threads[a.t].pc.key) in s.store
    ensures var s' := After(c, false, s, a);
            && s'.threads == s.threads[a.t := s'.threads[a.t]]
            && ThreadOk(c, false, quota, s'.threads[a.t]) && !s'.threads[a.t].pc.Inserting?
            && Todo(s'.threads[a.t]) <= Todo(s.threads[a.t])
            && s'.counter == s.counter && s'.issued == s.issued && s'.stored == s.stored
            && s'.requests == s.requests + [(s.threads[a.t].pc.key, true)]
            && s'.store.Keys == s.store.Keys
  {
    var k := c.index(s.threads[a.t].pc.key);
    assert Update(s.store, k, a.values).Keys == s.store.Keys;
  }

  lemma RequestFindsRecord(c: Setup, s: System, key: uint64)
    requires Loaded(c, s) && StoreMatches(c, s.store, s.stored) && key < c.recordCount
    ensures c.index(key) in s.store
  {
    assert key in s.stored;
  }

  lemma ChoiceKeepsInv(c: Setup, quota: nat, limit: nat, s: System, a: Action)
    requires c.Valid() && c.recordCount >= 1 && Inv(c, false, quota, limit, s)
    requires (a.ChooseOp? || a.DrawKey?) && Enabled(false, s, a)
    ensures Inv(c, false, quota, limit, After(c, false, s, a))
  {
    var th' := After(c, false, s, a).threads[a.t];
    QuietAccounted(c, s, a.t, th');
    SumTodoUpdate(s.threads, a.t, th');
    assert LastKey(c) == c.recordCount - 1;
    if After(c, false, s, a).threads == s.threads { assert After(c, false, s, a) == s; }
  }

  lemma StepKeepsInv(c: Setup, loading: bool, quota: nat, limit: nat, s: System, a: Action)
    requires c.Valid() && (loading || c.recordCount >= 1) && limit <= TWO32
    requires Inv(c, loading, quota, limit, s) && Enabled(loading, s, a)
    ensures Inv(c, loading, quota, limit, After(c, loading, s, a))
  {
    match a
    case FetchKey(t) => FetchKeepsInv(c, loading, quota, limit, s, t);
    case ExecInsert(_, _, _) => InsertKeepsInv(c, loading, quota, limit, s, a);
    case ExecRequest(_, _, _) => RequestKeepsInv(c, quota, limit, s, a);
    case _ => ChoiceKeepsInv(c, quota, limit, s, a);
  }

  /** Every reachable state of a phase satisfies the invariant. */
  lemma {:induction false} RunKeepsInv(c: Setup, loading: bool, quota: nat, limit: nat, s: System, actions: seq<Action>)
    requires c.Valid() && (loading || c.recordCount >= 1) && limit <= TWO32
    requires Inv(c, loading, quota, limit, s) && Runs(c, loading, s, actions)
    ensures Inv(c, loading, quota, limit, Final(c, loading, s, actions))
    decreases |actions|
  {
    if actions == [] {
    } else {
      StepKeepsInv(c, loading, quota, limit, s, actions[0]);
      RunKeepsInv(c, loading, quota, limit, After(c, loading, s, actions[0]), actions[1..]);
    }
  }

  // ---------------------------------------------------------------- the load phase

  function Quota(total: nat, threads: nat): (q: nat)
    requires threads >= 1
    ensures threads * q <= total && total - threads * q == total % threads
  {
    total / threads
  }

  /** How many records a load phase inserts: the total, short by its remainder modulo the thread count. */
  function LoadCount(c: Setup): (n: nat)
    requires c.Valid()
    ensures n <= c.recordCount && c.recordCount - n == c.recordCount % c.threads
  {
    c.threads * Quota(c.recordCount, c.threads)
  }

  lemma LoadStartInv(c: Setup)
    requires c.Valid()
    ensures Inv(c, true, Quota(c.recordCount, c.threads), c.start + LoadCount(c), LoadStart(c))
  {
    SumTodoAll(LoadStart(c).threads, Quota(c.recordCount, c.threads));
    assert LoadStart(c).issued == Range(c.start, c.start);
  }

  function SumOks(threads: seq<Thread>): (n: nat)
  {
    if threads == [] then 0 else threads[0].oks + SumOks(threads[1..])
  }

  /** What `main` does with the per-thread histograms: merge all into the first. */
  function MergedAll(threads: seq<Thread>): (b: Build)
  {
    if threads == [] then Cleared
    else if |threads| == 1 then threads[0].his
    else Merged(MergedAll(threads[..|threads| - 1]), threads[|threads| - 1].his)
  }

  lemma {:induction false} TotalOks(c: Setup, loading: bool, quota: nat, threads: seq<Thread>)
    requires forall t :: 0 <= t < |threads| ==> ThreadOk(c, loading, quota, threads[t]) && threads[t].left == 0
    ensures SumOks(threads) == |threads| * quota
  {
    if threads == [] {
    } else {
      TotalOks(c, loading, quota, threads[1..]);
      OneMore(|threads| - 1, quota);
    }
  }

  lemma {:induction false} TotalRecorded(c: Setup, loading: bool, quota: nat, threads: seq<Thread>)
    requires forall t :: 0 <= t < |threads| ==> ThreadOk(c, loading, quota, threads[t]) && threads[t].left == 0
    ensures |Recorded(MergedAll(threads))| == |threads| * quota
  {
    if threads == [] {
    } else {
      var n := |threads| - 1;
      TotalRecorded(c, loading, quota, threads[..n]);
      OneMore(n, quota);
    }
  }

  lemma OneMore(n: nat, quota: nat)
    ensures (n + 1) * quota == n * quota + quota
  {
  }

  /** At the end of a phase: as many successes as operations, and as many latencies in the merged histogram. */
  lemma PhaseTotals(c: Setup, loading: bool, quota: nat, limit: nat, s: System)
    requires Inv(c, loading, quota, limit, s) && Finished(s)
    ensures SumOks(s.threads) == c.threads * quota
    ensures Eval(MergedAll(s.threads)).num == (c.threads * quota) as real
    ensures SumTodo(s.threads) == 0
  {
    TotalOks(c, loading, quota, s.threads);
    TotalRecorded(c, loading, quota, s.threads);
    BucketsTotalNum(MergedAll(s.threads));
    SumTodoAll(s.threads, 0);
  }

  lemma {:induction false} RangeSet(a: nat, b: nat, numbers: set<uint64>)
    requires a <= b && forall k: uint64 :: k in numbers <==> a <= k < b
    requires b <= TWO64
    ensures |numbers| == b - a
    decreases b - a
  {
    if a < b {
      assert numbers == (numbers - {a}) + {a};
      RangeSet(a + 1, b, numbers - {a});
    } else {
      assert numbers == {};
    }
  }

  lemma {:induction false} RecordCount(c: Setup, store: Store, stored: set<uint64>)
    requires c.Valid() && StoreMatches(c, store, stored) && forall k :: k in stored ==> k < TWO32
    ensures |store| == |stored|
    decreases |stored|
  {
    if stored == {} {
      NoRecords(c, store);
    } else {
      var k :| k in stored;
      var i := HasRecord(c, store, stored, k);
      DropOne(c, store, stored, k);
      RecordCount(c, store - {i}, stored - {k});
      RemoveOneKey(store, i);
    }
  }

  lemma NoRecords(c: Setup, store: Store)
    requires StoreMatches(c, store, {})
    ensures |store| == 0
  {
    forall i | i in store
      ensures false
    {
    }
    assert store == map[];
  }

  lemma HasRecord(c: Setup, store: Store, stored: set<uint64>, k: uint64) returns (i: string)
    requires StoreMatches(c, store, stored) && k in stored
    ensures i == c.index(k) && i in store
  {
    i := c.index(k);
  }

  lemma DropOne(c: Setup, store: Store, stored: set<uint64>, k: uint64)
    requires c.Valid() && StoreMatches(c, store, stored) && k in stored && forall l :: l in stored ==> l < TWO32
    ensures StoreMatches(c, store - {c.index(k)}, stored - {k})
  {
    var i, rest := c.index(k), stored - {k};
    assert forall l :: l in rest ==> c.index(l) != i;
    forall j | j in store && j != i
      ensures exists l :: l in rest && c.index(l) == j
    {
      var l :| l in stored && c.index(l) == j;
      assert l in rest;
    }
  }

  /**
   Loading, under every interleaving: when all threads have returned, the key numbers handed out are
   exactly start, start + 1, ... in that order, each once; the database holds exactly one record per
   number; every insert succeeded and was timed.
   */
  lemma LoadComplete(c: Setup, actions: seq<Action>)
    requires c.Valid() && Runs(c, true, LoadStart(c), actions)
    requires Finished(Final(c, true, LoadStart(c), actions))
    ensures var s := Final(c, true, LoadStart(c), actions);
            && s.issued == Range(c.start, c.start + LoadCount(c))
            && s.counter == c.start + LoadCount(c)
            && (forall k: uint64 :: k in s.stored <==> c.start <= k < c.start + LoadCount(c))
            && StoreMatches(c, s.store, s.stored)
            && |s.store| == LoadCount(c)
            && SumOks(s.threads) == LoadCount(c)
            && Eval(MergedAll(s.threads)).num == LoadCount(c) as real
  {
    var quota, limit := Quota(c.recordCount, c.threads), c.start + LoadCount(c);
    LoadStartInv(c);
    RunKeepsInv(c, true, quota, limit, LoadStart(c), actions);
    var s := Final(c, true, LoadStart(c), actions);
    PhaseTotals(c, true, quota, limit, s);
    NoneHeld(c, s);
    RangeSet(c.start, limit, s.stored);
    RecordCount(c, s.store, s.stored);
  }

  lemma NoneHeld(c: Setup, s: System)
    requires Accounted(c, s) && Finished(s)
    ensures forall k: uint64 :: k in s.stored <==> c.start <= k < s.counter
  {
    assert forall t: nat, k: uint64 :: !Holds(s.threads, t, k);
  }

  /** Actions left to do in a load phase. */
  function Work(threads: seq<Thread>): (n: nat)
  {
    if threads == [] then 0
    else WorkOf(threads[0]) + Work(threads[1..])
  }

  function WorkOf(th: Thread): (n: nat)
  {
    2 * th.left - if th.pc.Inserting? && th.left > 0 then 1 else 0
  }

  lemma {:induction false} WorkUpdate(threads: seq<Thread>, t: nat, th: Thread)
    requires t < |threads|
    ensures Work(threads[t := th]) == Work(threads) - WorkOf(threads[t]) + WorkOf(th)
  {
    if t > 0 {
      WorkUpdate(threads[1..], t - 1, th);
      assert threads[t := th][1..] == threads[1..][t - 1 := th];
    } else {
      assert threads[t := th][1..] == threads[1..];
    }
  }

  lemma {:induction false} WorkAll(threads: seq<Thread>, n: nat)
    requires forall t :: 0 <= t < |threads| ==> WorkOf(threads[t]) == n
    ensures Work(threads) == |threads| * n
  {
    if threads == [] {
    } else {
      WorkAll(threads[1..], n);
    }
  }

  lemma {:induction false} WorkZero(threads: seq<Thread>)
    ensures Work(threads) == 0 <==> forall t :: 0 <= t < |threads| ==> threads[t].left == 0
  {
    if threads == [] {
    } else {
      WorkZero(threads[1..]);
      assert forall t :: 0 < t < |threads| ==> threads[t] == threads[1..][t - 1];
      assert forall t :: 0 <= t < |threads[1..]| ==> threads[1..][t] == threads[t + 1];
    }
  }

  lemma {:induction false} LoadWork(c: Setup, quota: nat, limit: nat, s: System, actions: seq<Action>)
    requires c.Valid() && limit <= TWO32 && Inv(c, true, quota, limit, s) && Runs(c, true, s, actions)
    ensures |actions| + Work(Final(c, true, s, actions).threads) == Work(s.threads)
    decreases |actions|
  {
    if actions == [] {
    } else {
      var a := actions[0];
      var s' := After(c, true, s, a);
      StepKeepsInv(c, true, quota, limit, s, a);
      LoadWork(c, quota, limit, s', actions[1..]);
      LoadStepWork(c, quota, s, a);
    }
  }

  lemma LoadStepWork(c: Setup, quota: nat, s: System, a: Action)
    requires Enabled(true, s, a) && ThreadOk(c, true, quota, s.threads[a.t])
    ensures Work(After(c, true, s, a).threads) == Work(s.threads) - 1
  {
    WorkUpdate(s.threads, a.t, After(c, true, s, a).threads[a.t]);
  }

  /** A load phase ends after exactly 2 * LoadCount actions and can always go on until then. */
  lemma LoadTerminates(c: Setup, actions: seq<Action>)
    requires c.Valid() && Runs(c, true, LoadStart(c), actions)
    ensures |actions| <= 2 * LoadCount(c)
    ensures var s := Final(c, true, LoadStart(c), actions);
            && (Finished(s) <==> |actions| == 2 * LoadCount(c))
            && (Finished(s) || exists a :: Enabled(true, s, a))
  {
    var quota, limit := Quota(c.recordCount, c.threads), c.start + LoadCount(c);
    LoadStartInv(c);
    RunKeepsInv(c, true, quota, limit, LoadStart(c), actions);
    LoadWork(c, quota, limit, LoadStart(c), actions);
    StartWork(c);
    DoneIffNoWork(c, true, quota, limit, Final(c, true, LoadStart(c), actions));
    Progress(c, true, quota, limit, Final(c, true, LoadStart(c), actions));
  }

  lemma StartWork(c: Setup)
    requires c.Valid()
    ensures Work(LoadStart(c).threads) == 2 * LoadCount(c)
  {
    var quota := Quota(c.recordCount, c.threads);
    WorkAll(LoadStart(c).threads, 2 * quota);
    TwiceQuota(c.threads, quota);
  }

  lemma DoneIffNoWork(c: Setup, loading: bool, quota: nat, limit: nat, s: System)
    requires Inv(c, loading, quota, limit, s)
    ensures Finished(s) <==> Work(s.threads) == 0
  {
    WorkZero(s.threads);
    assert forall t :: 0 <= t < |s.threads| ==> ThreadOk(c, loading, quota, s.threads[t]);
  }

  /** In either phase, until every thread has returned some thread can move. */
  lemma Progress(c: Setup, loading: bool, quota: nat, limit: nat, s: System)
    requires Inv(c, loading, quota, limit, s)
    ensures Finished(s) || exists a :: Enabled(loading, s, a)
  {
    if !Finished(s) {
      var t :| 0 <= t < |s.threads| && (s.threads[t].left != 0 || !s.threads[t].pc.Idle?);
      assert ThreadOk(c, loading, quota, s.threads[t]);
      var a := NextAction(loading, s.threads[t].pc, t);
      assert Enabled(loading, s, a);
    }
  }

  /** Something a thread with work left can do. */
  function NextAction(loading: bool, pc: Pc, t: nat): (a: Action)
  {
    match pc
    case Idle => if loading then FetchKey(t) else ChooseOp(t, READ)
    case Chosen(op) => if op == INSERT then FetchKey(t) else DrawKey(t, 0)
    case Inserting(_) => ExecInsert(t, [], 0.0)
    case Requesting(_, _) => ExecRequest(t, [], 0.0)
  }

  lemma TwiceQuota(threads: nat, quota: nat)
    ensures threads * (2 * quota) == 2 * (threads * quota)
  {
  }

  // ---------------------------------------------------------------- load, then run

  lemma RunStartInv(c: Setup, s: System, opCount: nat, quota: nat, limit: nat)
    requires c.Valid() && c.start == 0 && c.recordCount % c.threads == 0 && opCount < 0x8000_0000
    requires Inv(c, true, quota, limit, s) && Finished(s) && limit == LoadCount(c)
    ensures Inv(c, false, Quota(opCount, c.threads), c.recordCount + opCount, RunStart(c, s, opCount))
  {
    PhaseTotals(c, true, quota, limit, s);
    NoneHeld(c, s);
    var r := RunStart(c, s, opCount);
    SumTodoAll(r.threads, Quota(opCount, c.threads));
    assert Accounted(c, r);
  }

  /**
   A "both" run from key number 0 with a thread count dividing the record count, under every
   interleaving and all draws: every key requested in the run phase was inserted in the load phase
   and is found, and no transaction fails. Numbers handed out in the run phase follow on, are never
   requested, and end up in the database; until all threads have returned, some thread can move.
   */
  lemma BothRun(c: Setup, load: seq<Action>, opCount: nat, run: seq<Action>)
    requires c.Valid() && c.start == 0 && c.recordCount >= 1 && c.recordCount % c.threads == 0
    requires opCount < 0x8000_0000
    requires Runs(c, true, LoadStart(c), load) && Finished(Final(c, true, LoadStart(c), load))
    requires Runs(c, false, RunStart(c, Final(c, true, LoadStart(c), load), opCount), run)
    ensures var loaded := Final(c, true, LoadStart(c), load);
            var s := Final(c, false, RunStart(c, loaded, opCount), run);
            && RequestsLoaded(c, loaded, s)
            && RunAccounts(c, s)
            && (Finished(s) ==> RunTotals(c, s, Quota(opCount, c.threads)))
            && (Finished(s) || exists a :: Enabled(false, s, a))
  {
    var loaded := Final(c, true, LoadStart(c), load);
    LoadThenRun(c, load, opCount);
    LoadComplete(c, load);
    var r, ops := RunStart(c, loaded, opCount), Quota(opCount, c.threads);
    RunKeepsInv(c, false, ops, c.recordCount + opCount, r, run);
    RunOutcome(c, loaded, ops, c.recordCount + opCount, Final(c, false, r, run));
  }

  /** Every request was for a loaded record, and found it. */
  ghost predicate RequestsLoaded(c: Setup, loaded: System, s: System)
  {
    forall i :: 0 <= i < |s.requests| ==>
      && s.requests[i].0 < c.recordCount && s.requests[i].1
      && c.index(s.requests[i].0) in loaded.store
  }

  /** The numbers handed out are consecutive from 0, and those of the run phase are never requested. */
  ghost predicate RunAccounts(c: Setup, s: System)
  {
    && s.issued == Range(0, s.counter)
    && (forall i, j :: c.recordCount <= i < |s.issued| && 0 <= j < |s.requests| ==> s.issued[i] != s.requests[j].0)
  }

  /** At the end: one record per number handed out, every transaction a success, every latency counted. */
  ghost predicate RunTotals(c: Setup, s: System, ops: nat)
  {
    && |s.store| == s.counter
    && SumOks(s.threads) == c.threads * ops
    && Eval(MergedAll(s.threads)).num == (c.threads * ops) as real
  }

  lemma LoadThenRun(c: Setup, load: seq<Action>, opCount: nat)
    requires c.Valid() && c.start == 0 && c.recordCount % c.threads == 0 && opCount < 0x8000_0000
    requires Runs(c, true, LoadStart(c), load) && Finished(Final(c, true, LoadStart(c), load))
    ensures Inv(c, false, Quota(opCount, c.threads), c.recordCount + opCount,
                RunStart(c, Final(c, true, LoadStart(c), load), opCount))
  {
    var quota, limit := Quota(c.recordCount, c.threads), LoadCount(c);
    LoadStartInv(c);
    RunKeepsInv(c, true, quota, limit, LoadStart(c), load);
    RunStartInv(c, Final(c, true, LoadStart(c), load), opCount, quota, limit);
  }

  lemma RunOutcome(c: Setup, loaded: System, ops: nat, limit: nat, s: System)
    requires c.Valid() && c.start == 0 && Inv(c, false, ops, limit, s) && limit <= TWO32
    requires Loaded(c, loaded) && StoreMatches(c, loaded.store, loaded.stored)
    ensures RequestsLoaded(c, loaded, s) && RunAccounts(c, s)
    ensures Finished(s) ==> RunTotals(c, s, ops)
    ensures Finished(s) || exists a :: Enabled(false, s, a)
  {
    forall i | 0 <= i < |s.requests|
      ensures c.index(s.requests[i].0) in loaded.store
    {
      RequestFindsRecord(c, loaded, s.requests[i].0);
    }
    Progress(c, false, ops, limit, s);
    if Finished(s) {
      PhaseTotals(c, false, ops, limit, s);
      NoneHeld(c, s);
      RangeSet(0, s.counter, s.stored);
      RecordCount(c, s.store, s.stored);
    }
  }

  /**
   The condition is exact: after loading, every key number the rejection loop can accept has a record
   if and only if loading started at 0 and the thread count divides the record count.
   */
  lemma AllRequestableIff(c: Setup, load: seq<Action>)
    requires c.Valid() && c.recordCount >= 1
    requires Runs(c, true, LoadStart(c), load) && Finished(Final(c, true, LoadStart(c), load))
    ensures (forall k: uint64 :: k <= LastKey(c) ==> c.index(k) in Final(c, true, LoadStart(c), load).store)
            <==> c.start == 0 && c.recordCount % c.threads == 0
  {
    LoadComplete(c, load);
    RequestableIff(c, Final(c, true, LoadStart(c), load));
  }

  lemma RequestableIff(c: Setup, s: System)
    requires c.Valid() && c.recordCount >= 1 && StoreMatches(c, s.store, s.stored)
    requires forall k: uint64 :: k in s.stored <==> c.start <= k < c.start + LoadCount(c)
    ensures (forall k: uint64 :: k <= LastKey(c) ==> c.index(k) in s.store)
            <==> c.start == 0 && c.recordCount % c.threads == 0
  {
    var last := LastKey(c);
    assert last == c.recordCount - 1;
    forall k: uint64 | k <= last
      ensures c.index(k) in s.store <==> k in s.stored
    {
      StoredIff(c, s.store, s.stored, k);
    }
    assert 0 in s.stored && last in s.stored <==> c.start == 0 && LoadCount(c) == c.recordCount;
    StoredIff(c, s.store, s.stored, 0);
    StoredIff(c, s.store, s.stored, last);
  }

  lemma StoredIff(c: Setup, store: Store, stored: set<uint64>, k: uint64)
    requires c.Valid() && StoreMatches(c, store, stored) && k < TWO32
    requires forall l :: l in stored ==> l < TWO32
    ensures c.index(k) in store <==> k in stored
  {
    if c.index(k) in store {
      var l :| l in stored && c.index(l) == c.index(k);
    }
  }
}
