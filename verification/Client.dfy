/**
 The client of `core/client.h` against the hashtable database: which key each
 operation touches, what it does to the records and what it reports. No client
 operation ever leaks a value string.
 */
module Clients {
  import opened Options
  import opened Fnv
  import opened KeyName
  import opened CStrings
  import opened Records
  import opened HashtableDb
  import opened Generators
  import opened Workload
  import opened Phases

  /** The random choices of one transaction: chooser values, a field and its content, a record, a scan length. */
  datatype Draws = Draws(keys: seq<uint64>, field: nat, content: string, payload: seq<string>, scanLength: int)

  /** The key number a transaction settles on, if the rejection loop ends within the draws given. */
  function KeyNumber(draws: Draws, last: uint64): (k: Option<uint64>)
  {
    match FirstAccepted(draws.keys, last)
    case None => None
    case Some(i) => Some(draws.keys[i])
  }

  /** What an update writes. */
  function Written(writeAll: bool, draws: Draws): (values: seq<Pair>)
  {
    if writeAll then Values(draws.payload) else OneValue(draws.field, draws.content)
  }

  /** The store after one transaction and whether it counts as a success; None while the loop goes on. */
  function Effect(s: Store, index: uint64 -> string, writeAll: bool, counter: uint64, last: uint64, op: Op,
                  draws: Draws): (r: Option<(Store, bool)>)
  {
    if op == INSERT then
      var (store, status) := Insert(s, index(counter), Values(draws.payload));
      Some((store, status == Ok))
    else match KeyNumber(draws, last)
      case None => None
      case Some(k) =>
        match op
        case READ => Some((s, index(k) in s))
        case SCAN => Some((s, true))
        case _ => Some((Update(s, index(k), Written(writeAll, draws)), true))
  }

  /** A load insert succeeds exactly when its record shares no field with what was there. */
  lemma InsertStatus(s: Store, k: string, payload: seq<string>)
    ensures Insert(s, k, Values(payload)).1 == Ok <==> k !in s || Records.Fresh(s[k], Values(payload))
  {
    ValuesDistinct(payload);
    InsertOkIff(Record(s, k), Values(payload));
  }

  /** What an update makes of a record: one drawn field set, or all fields of the payload. */
  ghost predicate UpdatedTo(r: Fields, r': Fields, writeAll: bool, draws: Draws)
  {
    if writeAll then AllWritten(r, r', draws.payload)
    else r' == r["field" + ToString(draws.field) := CStr(draws.content)]
  }

  lemma WrittenUpdates(r: Fields, writeAll: bool, draws: Draws)
    ensures UpdatedTo(r, Overlay(r, Written(writeAll, draws)), writeAll, draws)
  {
    ValuesOverlay(r, draws.payload);
    OneValueOverlay(r, draws.field, draws.content);
  }

  lemma WrittenPlain(writeAll: bool, draws: Draws)
    ensures PlainNames(Values(draws.payload)) && PlainNames(Written(writeAll, draws))
  {
    WorkloadNamesPlain(draws.payload, draws.field, draws.content);
  }

  /**
   A load insert of `payload` under `k`: it succeeds exactly when the record is missing or shares no field,
   and then field j of the record holds payload j and what the record held is kept.
   */
  ghost predicate Inserted(s: Store, s': Store, k: string, payload: seq<string>, ok: bool)
  {
    && (s', ok) == (Insert(s, k, Values(payload)).0, Insert(s, k, Values(payload)).1 == Ok)
    && (ok <==> k !in s || Records.Fresh(s[k], Values(payload)))
    && (ok ==> k in s' && AllWritten(Record(s, k), s'[k], payload))
  }

  lemma InsertOutcome(s: Store, k: string, payload: seq<string>)
    ensures var (s', status) := Insert(s, k, Values(payload));
            Inserted(s, s', k, payload, status == Ok)
  {
    InsertStatus(s, k, payload);
    InsertedRecord(s, k, payload);
  }

  lemma NameIndex(w: Naming, number: uint64)
    ensures Index(w, number) == KeyIndex(w.table, BuildKeyName(w.ordered, w.padding, number))
  {
  }

  /** A successful load insert adds the whole payload to the record. */
  lemma InsertedRecord(s: Store, k: string, payload: seq<string>)
    ensures var (s', status) := Insert(s, k, Values(payload));
            k in s' && (status == Ok ==> AllWritten(Record(s, k), s'[k], payload))
  {
    InsertKeepsPrefix(Record(s, k), Values(payload));
    ValuesOverlay(Record(s, k), payload);
    assert Values(payload)[..|payload|] == Values(payload);
  }

  /** Nothing a client does gives a record a field that is not named field(i). */
  lemma EffectPlain(s: Store, index: uint64 -> string, writeAll: bool, counter: uint64, last: uint64, op: Op,
                    draws: Draws)
    requires PlainRecords(s)
    ensures var e := Effect(s, index, writeAll, counter, last, op, draws);
            e.Some? ==> PlainRecords(e.value.0)
  {
    if op == INSERT {
      InsertPlain(s, index(counter), draws);
    } else if KeyNumber(draws, last).Some? {
      UpdatePlain(s, index(KeyNumber(draws, last).value), writeAll, draws);
    }
  }

  lemma InsertPlain(s: Store, k: string, draws: Draws)
    requires PlainRecords(s)
    ensures PlainRecords(Insert(s, k, Values(draws.payload)).0)
  {
    WrittenPlain(true, draws);
    StorePlain(s, k, Values(draws.payload));
  }

  lemma UpdatePlain(s: Store, k: string, writeAll: bool, draws: Draws)
    requires PlainRecords(s)
    ensures PlainRecords(Update(s, k, Written(writeAll, draws)))
  {
    WrittenPlain(writeAll, draws);
    StorePlain(s, k, Written(writeAll, draws));
  }

  /** How a transaction ends: no operation owns the draw, the rejection loop goes on, or it is done. */
  datatype Ending = NoOperation | Unsettled | Done(ok: bool)

  class Client {
    const db: HashtableDB
    const workload: CoreWorkload
    const table: string
    const readAll: bool
    const writeAll: bool

    ghost predicate Valid()
      reads this, db, workload, workload.opChooser
    {
      db.Valid() && workload.Valid()
    }

    function NamingOf(): (w: Naming)
    {
      Naming(table, workload.ordered, workload.padding)
    }

    constructor (db: HashtableDB, workload: CoreWorkload, table: string, readAll: bool, writeAll: bool)
      requires db.Valid() && workload.Valid()
      ensures Valid() && this.db == db && this.workload == workload && this.table == table
      ensures this.readAll == readAll && this.writeAll == writeAll
    {
      this.db, this.workload, this.table, this.readAll, this.writeAll := db, workload, table, readAll, writeAll;
    }

    /** Inserts a record under the next number of the counter; `TransactionInsert` does the same. */
    method InsertNext(payload: seq<string>) returns (status: Status)
      requires Valid()
      modifies db, workload.keyGenerator
      ensures Valid() && db.Garbage() == old(db.Garbage())
      ensures workload.keyGenerator.counter == (old(workload.keyGenerator.counter) + 1) % TWO64
      ensures (db.Contents(), status) ==
              Records.Insert(old(db.Contents()), Index(NamingOf(), old(workload.keyGenerator.counter)), Values(payload))
    {
      NameIndex(NamingOf(), workload.keyGenerator.counter);
      var key := workload.NextSequenceKey();
      status := InsertUnder(key, payload);
    }

    method InsertUnder(key: string, payload: seq<string>) returns (status: Status)
      requires db.Valid()
      modifies db
      ensures db.Valid() && db.Garbage() == old(db.Garbage())
      ensures (db.Contents(), status) == Records.Insert(old(db.Contents()), KeyIndex(table, key), Values(payload))
    {
      var pairs := BuildValues(payload);
      status := db.Insert(table, key, pairs);
    }

    method DoInsert(payload: seq<string>) returns (ok: bool)
      requires Valid()
      modifies db, workload.keyGenerator
      ensures Valid() && db.Garbage() == old(db.Garbage())
      ensures workload.keyGenerator.counter == (old(workload.keyGenerator.counter) + 1) % TWO64
      ensures Inserted(old(db.Contents()), db.Contents(), Index(NamingOf(), old(workload.keyGenerator.counter)),
                       payload, ok)
    {
      ghost var s, k := db.Contents(), Index(NamingOf(), workload.keyGenerator.counter);
      var status := InsertNext(payload);
      InsertOutcome(s, k, payload);
      ok := status == Ok;
    }

    /** Reads the record of the accepted key, all of it or one field; changes nothing. */
    method TransactionRead(draws: Draws) returns (status: Option<Status>, result: seq<Pair>)
      requires Valid()
      ensures match KeyNumber(draws, workload.insertKeySequence.Last())
              case None => status == None
              case Some(k) =>
                var i := Index(NamingOf(), k);
                && status == Some(if i in db.Contents() then Ok else NoData)
                && (i in db.Contents() && readAll ==> Lists(result, db.Contents()[i]))
                && (i in db.Contents() && !readAll ==>
                      result == Select(db.Contents()[i], [FIELD + FieldName(draws.field)]))
    {
      result := [];
      var key, _ := workload.NextTransactionKey(draws.keys);
      if key.None? {
        return None, result;
      }
      var s;
      s, result := ReadRecord(key.value, draws);
      status := Some(s);
    }

    method ReadRecord(key: string, draws: Draws) returns (status: Status, result: seq<Pair>)
      requires Valid()
      ensures var i := KeyIndex(table, key);
              && status == (if i in db.Contents() then Ok else NoData)
              && (i in db.Contents() && readAll ==> Lists(result, db.Contents()[i]))
              && (i in db.Contents() && !readAll ==>
                    result == Select(db.Contents()[i], [FIELD + FieldName(draws.field)]))
    {
      if readAll {
        status, result := db.Read(table, key, None, []);
      } else {
        status, result := db.Read(table, key, Some([FIELD + FieldName(draws.field)]), []);
      }
    }

    /** Overlays drawn values on the record of `key`, creating it if it is missing. */
    method Write(key: string, draws: Draws) returns (status: Status)
      requires Valid()
      modifies db
      ensures Valid() && db.Garbage() == old(db.Garbage()) && status == Ok
      ensures var i := KeyIndex(table, key);
              && db.Contents() == Update(old(db.Contents()), i, Written(writeAll, draws))
              && db.Contents() ==
                 old(db.Contents())[i := Overlay(Record(old(db.Contents()), i), Written(writeAll, draws))]
              && UpdatedTo(Record(old(db.Contents()), i), db.Contents()[i], writeAll, draws)
    {
      var values;
      if writeAll {
        values := BuildValues(draws.payload);
      } else {
        values := OneValue(draws.field, draws.content);
      }
      UpdateOverlays(db.Contents(), KeyIndex(table, key), values);
      WrittenUpdates(Record(db.Contents(), KeyIndex(table, key)), writeAll, draws);
      status := db.Update(table, key, values);
    }

    /** A scan from the accepted key, in the order `iter` in which the table iterates: always succeeds. */
    method TransactionScan(draws: Draws, iter: seq<string>)
      returns (status: Option<Status>, result: seq<seq<Pair>>, order: seq<string>)
      requires Valid() && Enumerates(iter, db.Contents().Keys)
      ensures match KeyNumber(draws, workload.insertKeySequence.Last())
              case None => status == None && result == []
              case Some(k) =>
                var i, n := Index(NamingOf(), k), draws.scanLength;
                && status == Some(Ok)
                && ScanOrder(order, iter, i, if n < 0 then |iter| else n)
                && ScanAnswers(result, db.Contents(), order,
                               if readAll then None else Some([FIELD + FieldName(draws.field)]))
    {
      result, order := [], [];
      var key, _ := workload.NextTransactionKey(draws.keys);
      if key.None? {
        return None, result, order;
      }
      var fields := if readAll then None else Some([FIELD + FieldName(draws.field)]);
      var s;
      s, result, order := db.Scan(table, key.value, draws.scanLength, fields, iter);
      status := Some(s);
    }

    /** `TransactionUpdate`, and with `readFirst` `TransactionReadModifyWrite`. */
    method TransactionUpdate(readFirst: bool, draws: Draws) returns (status: Option<Status>)
      requires Valid()
      modifies db
      ensures Valid() && db.Garbage() == old(db.Garbage())
      ensures match KeyNumber(draws, workload.insertKeySequence.Last())
              case None => status == None && db.Contents() == old(db.Contents())
              case Some(k) =>
                var i := Index(NamingOf(), k);
                && status == Some(Ok)
                && db.Contents() == Update(old(db.Contents()), i, Written(writeAll, draws))
                && i in db.Contents() && db.Contents() == old(db.Contents())[i := db.Contents()[i]]
                && UpdatedTo(Record(old(db.Contents()), i), db.Contents()[i], writeAll, draws)
    {
      var key, _ := workload.NextTransactionKey(draws.keys);
      if key.None? {
        return None;
      }
      if readFirst {
        var _, _ := ReadRecord(key.value, draws);
      }
      var s := Write(key.value, draws);
      status := Some(s);
    }

    /** The five branches of `DoTransaction`, for an operation already picked. */
    method Execute(op: Op, draws: Draws) returns (ok: Option<bool>)
      requires Valid()
      modifies db, workload.keyGenerator
      ensures Valid() && db.Garbage() == old(db.Garbage())
      ensures match Effect(old(db.Contents()), Indexer(NamingOf()), writeAll, old(workload.keyGenerator.counter),
                           workload.insertKeySequence.Last(), op, draws)
              case None => ok == None && db.Contents() == old(db.Contents())
              case Some((store, success)) => ok == Some(success) && db.Contents() == store
      ensures workload.keyGenerator.counter == Advanced(op, old(workload.keyGenerator.counter))
    {
      var status: Option<Status>;
      if op == INSERT {
        var s := InsertNext(draws.payload);
        status := Some(s);
      } else if op == READ {
        var s, _ := TransactionRead(draws);
        status := s;
      } else if op == SCAN {
        var iter := db.IterationOrder();
        var s, _, _ := TransactionScan(draws, iter);
        status := s;
      } else {
        status := TransactionUpdate(op == READMODIFYWRITE, draws);
      }
      ok := if status.None? then None else Some(status.value == Ok);
    }

    /** `DoTransaction`: the operation owning the draw `u`, carried out. */
    method DoTransaction(u: real, draws: Draws) returns (e: Ending)
      requires Valid()
      modifies db, workload.keyGenerator, workload.opChooser`last
      ensures Valid() && db.Garbage() == old(db.Garbage())
      ensures Ends(workload.opChooser.values, workload.opChooser.sum, u, old(db.Contents()), Indexer(NamingOf()),
                   writeAll, old(workload.keyGenerator.counter), workload.insertKeySequence.Last(), draws)
              == (e, db.Contents(), workload.keyGenerator.counter)
    {
      var op := workload.NextOperation(u);
      if op.None? {
        return NoOperation;
      }
      var ok := Execute(op.value, draws);
      e := if ok.None? then Unsettled else Done(ok.value);
    }
  }

  /** The key counter after an operation. */
  function Advanced(op: Op, counter: uint64): (r: uint64)
  {
    if op == INSERT then (counter + 1) % TWO64 else counter
  }

  /** The ending, contents and counter of a transaction, from the operation weights and all draws. */
  function Ends(values: seq<(Op, real)>, sum: real, u: real, s: Store, index: uint64 -> string,
                writeAll: bool, counter: uint64, last: uint64, draws: Draws): (r: (Ending, Store, uint64))
  {
    match Choose(Weights(values), sum, Some(u))
    case None => (NoOperation, s, counter)
    case Some(i) =>
      var op := values[i].0;
      match Effect(s, index, writeAll, counter, last, op, draws)
      case None => (Unsettled, s, Advanced(op, counter))
      case Some((store, ok)) => (Done(ok), store, Advanced(op, counter))
  }

  // ---------------------------------------------------------------- client calls are runs of actions

  /** Thread `t` has finished an operation that left this store and this counter. */
  ghost predicate Carried(s: System, s': System, t: nat, store: Store, counter: uint64, ok: bool, duration: real)
    requires t < |s.threads| && s.threads[t].left > 0
  {
    && s'.store == store && s'.counter == counter
    && s'.threads == s.threads[t := Finish(s.threads[t], ok, duration)]
  }

  /** The thread moved to another point inside its operation. */
  function Moved(s: System, t: nat, pc: Pc): (r: System)
    requires t < |s.threads|
  {
    s.(threads := s.threads[t := s.threads[t].(pc := pc)])
  }

  /** Where the thread was inside its operation does not matter in the end. */
  lemma PcForgotten(s: System, pc: Pc, s': System, t: nat, store: Store, counter: uint64, ok: bool, duration: real)
    requires t < |s.threads| && s.threads[t].left > 0
    requires Carried(Moved(s, t, pc), s', t, store, counter, ok, duration)
    ensures Carried(s, s', t, store, counter, ok, duration)
  {
    assert Finish(Moved(s, t, pc).threads[t], ok, duration) == Finish(s.threads[t], ok, duration);
  }

  /** The actions of one `DoInsert` by thread `t`, done without interruption. */
  lemma InsertIsActions(c: Setup, s: System, t: nat, payload: seq<string>, duration: real)
    requires t < |s.threads| && s.threads[t].pc.Idle? && s.threads[t].left > 0
    ensures var actions := [FetchKey(t)] + [ExecInsert(t, payload, duration)];
            && Runs(c, true, s, actions)
            && var s' := Final(c, true, s, actions);
            var (store, status) := Insert(s.store, c.index(s.counter), Values(payload));
            Carried(s, s', t, store, (s.counter + 1) % TWO64, status == Ok, duration)
  {
    var fetch, exec := FetchKey(t), ExecInsert(t, payload, duration);
    var s1 := After(c, true, s, fetch);
    var s2 := After(c, true, s1, exec);
    LastAction(c, true, s1, s2, exec);
    ActionFirst(c, true, s, s1, fetch, [exec]);
  }

  lemma OneDraw(c: Setup, s: System, t: nat, op: Op, draw: uint64)
    requires t < |s.threads| && s.threads[t].pc == Chosen(op) && op != INSERT
    ensures Enabled(false, s, DrawKey(t, draw))
    ensures After(c, false, s, DrawKey(t, draw)) == if draw > LastKey(c) then s else Moved(s, t, Requesting(op, draw))
  {
  }

  /** The first i + 1 draws, then the rest of the transaction. */
  function DrawsThen(t: nat, keys: seq<uint64>, i: nat, tail: seq<Action>): (r: seq<Action>)
    requires i < |keys|
    decreases i
  {
    [DrawKey(t, keys[0])] + if i == 0 then tail else DrawsThen(t, keys[1..], i - 1, tail)
  }

  /** Rejected draws change nothing; the accepted one ends the loop with its key. */
  lemma {:induction false} DrawsRun(c: Setup, s: System, t: nat, op: Op, keys: seq<uint64>, i: nat,
                                    settled: System, tail: seq<Action>)
    requires t < |s.threads| && s.threads[t].pc == Chosen(op) && op != INSERT
    requires FirstAccepted(keys, LastKey(c)) == Some(i) && settled == Moved(s, t, Requesting(op, keys[i]))
    requires Runs(c, false, settled, tail)
    ensures Runs(c, false, s, DrawsThen(t, keys, i, tail))
    ensures Final(c, false, s, DrawsThen(t, keys, i, tail)) == Final(c, false, settled, tail)
    decreases i
  {
    OneDraw(c, s, t, op, keys[0]);
    if i > 0 {
      DrawsRun(c, s, t, op, keys[1..], i - 1, settled, tail);
      ActionFirst(c, false, s, s, DrawKey(t, keys[0]), DrawsThen(t, keys[1..], i - 1, tail));
    } else {
      ActionFirst(c, false, s, settled, DrawKey(t, keys[0]), tail);
    }
  }

  /** The database calls of a transaction whose key is settled: two for a read-modify-write, else one. */
  function Calls(t: nat, op: Op, values: seq<Pair>, duration: real): (r: seq<Action>)
  {
    var call := ExecRequest(t, values, duration);
    if op == READMODIFYWRITE then [call] + [call] else [call]
  }

  lemma CallsRun(c: Setup, s: System, t: nat, op: Op, k: uint64, values: seq<Pair>, duration: real)
    requires t < |s.threads| && s.threads[t].left > 0 && s.threads[t].pc == Requesting(op, k) && op != INSERT
    ensures Runs(c, false, s, Calls(t, op, values, duration))
    ensures var s', i := Final(c, false, s, Calls(t, op, values, duration)), c.index(k);
            Carried(s, s', t, if op == READ || op == SCAN then s.store else Update(s.store, i, values), s.counter,
                    op != READ || i in s.store, duration)
  {
    var call := ExecRequest(t, values, duration);
    var s1 := After(c, false, s, call);
    if op == READMODIFYWRITE {
      LastAction(c, false, s1, After(c, false, s1, call), call);
      ActionFirst(c, false, s, s1, call, [call]);
    } else {
      LastAction(c, false, s, s1, call);
    }
  }

  /** The actions of one transaction by thread `t`, whose draw number `i` is the first one accepted. */
  function TransactionActions(t: nat, op: Op, draws: Draws, i: nat, writeAll: bool, duration: real): (r: seq<Action>)
    requires op == INSERT || i < |draws.keys|
  {
    [ChooseOp(t, op)] +
    if op == INSERT then [FetchKey(t)] + [ExecInsert(t, draws.payload, duration)]
    else DrawsThen(t, draws.keys, i, Calls(t, op, Written(writeAll, draws), duration))
  }

  /**
   A transaction done by thread `t` without interruption, rejected draws included, is a run of the step
   system with the same effect on the store and the counter and the same outcome, whatever the operation.
   */
  lemma TransactionIsActions(c: Setup, s: System, t: nat, op: Op, draws: Draws, i: nat, writeAll: bool, duration: real)
    requires t < |s.threads| && s.threads[t].pc.Idle? && s.threads[t].left > 0
    requires op == INSERT || FirstAccepted(draws.keys, LastKey(c)) == Some(i)
    ensures var actions := TransactionActions(t, op, draws, i, writeAll, duration);
            && Runs(c, false, s, actions)
            && var s' := Final(c, false, s, actions);
            var effect := Effect(s.store, c.index, writeAll, s.counter, LastKey(c), op, draws);
            effect.Some? && Carried(s, s', t, effect.value.0, Advanced(op, s.counter), effect.value.1, duration)
  {
    if op == INSERT {
      InsertChosen(c, s, t, draws.payload, duration);
    } else {
      RequestChosen(c, s, t, op, draws.keys, i, Written(writeAll, draws), duration);
      EffectOf(s.store, c.index, writeAll, s.counter, LastKey(c), op, draws, i);
    }
  }

  lemma InsertChosen(c: Setup, s: System, t: nat, payload: seq<string>, duration: real)
    requires t < |s.threads| && s.threads[t].pc.Idle? && s.threads[t].left > 0
    ensures var actions := [ChooseOp(t, INSERT)] + ([FetchKey(t)] + [ExecInsert(t, payload, duration)]);
            && Runs(c, false, s, actions)
            && var s' := Final(c, false, s, actions);
            var (store, status) := Insert(s.store, c.index(s.counter), Values(payload));
            Carried(s, s', t, store, (s.counter + 1) % TWO64, status == Ok, duration)
  {
    var s1 := Moved(s, t, Chosen(INSERT));
    var rest := [FetchKey(t)] + [ExecInsert(t, payload, duration)];
    ChosenInsert(c, s1, t, payload, duration);
    ActionFirst(c, false, s, s1, ChooseOp(t, INSERT), rest);
    var (store, status) := Insert(s.store, c.index(s.counter), Values(payload));
    PcForgotten(s, Chosen(INSERT), Final(c, false, s1, rest), t, store, (s.counter + 1) % TWO64, status == Ok,
                duration);
  }

  lemma RequestChosen(c: Setup, s: System, t: nat, op: Op, keys: seq<uint64>, i: nat, values: seq<Pair>, duration: real)
    requires t < |s.threads| && s.threads[t].pc.Idle? && s.threads[t].left > 0 && op != INSERT
    requires FirstAccepted(keys, LastKey(c)) == Some(i)
    ensures var actions := [ChooseOp(t, op)] + DrawsThen(t, keys, i, Calls(t, op, values, duration));
            && Runs(c, false, s, actions)
            && var s', k := Final(c, false, s, actions), c.index(keys[i]);
            Carried(s, s', t, if op == READ || op == SCAN then s.store else Update(s.store, k, values), s.counter,
                    op != READ || k in s.store, duration)
  {
    var s1, k := Moved(s, t, Chosen(op)), c.index(keys[i]);
    var rest := DrawsThen(t, keys, i, Calls(t, op, values, duration));
    ChosenRun(c, s1, t, op, keys, i, values, duration);
    ActionFirst(c, false, s, s1, ChooseOp(t, op), rest);
    PcForgotten(s, Chosen(op), Final(c, false, s1, rest), t,
                if op == READ || op == SCAN then s.store else Update(s.store, k, values), s.counter,
                op != READ || k in s.store, duration);
  }

  lemma ChosenInsert(c: Setup, s: System, t: nat, payload: seq<string>, duration: real)
    requires t < |s.threads| && s.threads[t].left > 0 && s.threads[t].pc == Chosen(INSERT)
    ensures var actions := [FetchKey(t)] + [ExecInsert(t, payload, duration)];
            && Runs(c, false, s, actions)
            && var s' := Final(c, false, s, actions);
            var (store, status) := Insert(s.store, c.index(s.counter), Values(payload));
            Carried(s, s', t, store, (s.counter + 1) % TWO64, status == Ok, duration)
  {
    var fetch, exec := FetchKey(t), ExecInsert(t, payload, duration);
    var s1 := After(c, false, s, fetch);
    var s2 := After(c, false, s1, exec);
    LastAction(c, false, s1, s2, exec);
    ActionFirst(c, false, s, s1, fetch, [exec]);
  }

  lemma ChosenRun(c: Setup, s: System, t: nat, op: Op, keys: seq<uint64>, i: nat, values: seq<Pair>, duration: real)
    requires t < |s.threads| && s.threads[t].left > 0 && s.threads[t].pc == Chosen(op) && op != INSERT
    requires FirstAccepted(keys, LastKey(c)) == Some(i)
    ensures var actions := DrawsThen(t, keys, i, Calls(t, op, values, duration));
            && Runs(c, false, s, actions)
            && var s', k := Final(c, false, s, actions), c.index(keys[i]);
            Carried(s, s', t, if op == READ || op == SCAN then s.store else Update(s.store, k, values), s.counter,
                    op != READ || k in s.store, duration)
  {
    var k, calls := c.index(keys[i]), Calls(t, op, values, duration);
    var settled := Moved(s, t, Requesting(op, keys[i]));
    CallsRun(c, settled, t, op, keys[i], values, duration);
    DrawsRun(c, s, t, op, keys, i, settled, calls);
    PcForgotten(s, Requesting(op, keys[i]), Final(c, false, settled, calls), t,
                if op == READ || op == SCAN then s.store else Update(s.store, k, values), s.counter,
                op != READ || k in s.store, duration);
  }

  lemma EffectOf(s: Store, index: uint64 -> string, writeAll: bool, counter: uint64, last: uint64, op: Op,
                 draws: Draws, i: nat)
    requires FirstAccepted(draws.keys, last) == Some(i) && op != INSERT
    ensures var k := index(draws.keys[i]);
            Effect(s, index, writeAll, counter, last, op, draws) ==
            Some((if op == READ || op == SCAN then s else Update(s, k, Written(writeAll, draws)), op != READ || k in s))
  {
  }
}
