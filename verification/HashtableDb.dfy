/**
 `HashtableDB` of `db/hashtable_db.cc` over the sequential hashtable of
 `lib/stl_hashtable.h`, with `CopyString`/`DeleteString` owning the value
 strings. Every operation refines the nested-map store of module Records, frees
 only live strings, and leaks nothing except in the one case stated on `Update`.
 */
module HashtableDb {
  import opened Options
  import opened CStrings
  import opened Records
  import opened HashtableHeap

  // ---------------------------------------------------------------- the loops, on the store

  function Put(s: Store, k: string, pair: Pair): (r: Store)
    requires k in s
  {
    s[k := s[k][Name(pair) := Value(pair)]]
  }

  function InsertFrom(s: Store, k: string, values: seq<Pair>): (r: (Store, Status))
    requires k in s
    decreases |values|
  {
    if values == [] then (s, Ok)
    else if Name(values[0]) in s[k] then (s, Conflict)
    else InsertFrom(Put(s, k, values[0]), k, values[1..])
  }

  function OverlayFrom(s: Store, k: string, values: seq<Pair>): (r: Store)
    requires k in s
    decreases |values|
  {
    if values == [] then s else OverlayFrom(Put(s, k, values[0]), k, values[1..])
  }

  function FillFrom(s: Store, k: string, values: seq<Pair>): (r: Store)
    requires k in s
    decreases |values|
  {
    if values == [] then s
    else FillFrom(if Name(values[0]) in s[k] then s else Put(s, k, values[0]), k, values[1..])
  }

  lemma {:induction false} InsertFromIsInsert(s: Store, k: string, values: seq<Pair>)
    requires k in s
    ensures InsertFrom(s, k, values) ==
            (s[k := InsertFields(s[k], values).0], InsertFields(s[k], values).1)
    decreases |values|
  {
    assert s[k := s[k]] == s;
    if values == [] || Name(values[0]) in s[k] {
    } else {
      var s' := Put(s, k, values[0]);
      InsertFromIsInsert(s', k, values[1..]);
      var f := InsertFields(s[k], values).0;
      assert s'[k := f] == s[k := f];
    }
  }

  lemma {:induction false} OverlayFromIsOverlay(s: Store, k: string, values: seq<Pair>)
    requires k in s
    ensures OverlayFrom(s, k, values) == s[k := Overlay(s[k], values)]
    decreases |values|
  {
    if values == [] {
    } else {
      OverlayFromIsOverlay(Put(s, k, values[0]), k, values[1..]);
    }
  }

  lemma {:induction false} FillFromIsFill(s: Store, k: string, values: seq<Pair>)
    requires k in s
    ensures FillFrom(s, k, values) == s[k := Fill(s[k], values)]
    decreases |values|
  {
    if values == [] {
    } else {
      FillFromIsFill(if Name(values[0]) in s[k] then s else Put(s, k, values[0]), k, values[1..]);
    }
  }

  /** The store once the record is sure to exist. */
  function Opened(s: Store, k: string): (r: Store)
    ensures k in r
  {
    if k in s then s else s[k := map[]]
  }

  lemma InsertSpec(s: Store, k: string, values: seq<Pair>)
    ensures InsertFrom(Opened(s, k), k, values) == Records.Insert(s, k, values)
  {
    InsertFromIsInsert(Opened(s, k), k, values);
    var f := InsertFields(Record(s, k), values).0;
    assert Opened(s, k)[k := f] == s[k := f];
  }

  lemma FillSpec(s: Store, k: string, values: seq<Pair>)
    requires k !in s
    ensures FillFrom(Opened(s, k), k, values) == s[k := Fill(map[], values)]
    ensures InsertFields(Opened(s, k)[k], values).1.Ok? <==> Distinct(values)
  {
    FillFromIsFill(Opened(s, k), k, values);
    assert Opened(s, k)[k := Fill(map[], values)] == s[k := Fill(map[], values)];
    InsertOkIff(map[], values);
  }

  /**
   Halfway through filling a new record: contents `s` and garbage `g` after the first `i` pairs, from
   contents `s0` and garbage `g0`. Garbage has grown once some pair was refused.
   */
  ghost predicate Filling(s: Store, g: set<nat>, s0: Store, g0: set<nat>, k: string, values: seq<Pair>, i: nat)
  {
    && k in s && k in s0 && i <= |values|
    && FillFrom(s, k, values[i..]) == FillFrom(s0, k, values)
    && g0 <= g
    && (g == g0 && InsertFields(s[k], values[i..]).1.Ok? <==> InsertFields(s0[k], values).1.Ok?)
  }

  lemma FillStep(s: Store, g: set<nat>, s0: Store, g0: set<nat>, k: string, values: seq<Pair>, i: nat,
                 s': Store, g': set<nat>, x: nat)
    requires Filling(s, g, s0, g0, k, values, i) && i < |values| && x !in g
    requires Name(values[i]) in s[k] ==> s' == s && g' == g + {x}
    requires Name(values[i]) !in s[k] ==> s' == Put(s, k, values[i]) && g' == g
    ensures Filling(s', g', s0, g0, k, values, i + 1)
  {
    assert values[i..][0] == values[i] && values[i..][1..] == values[i + 1..];
  }

  class HashtableDB {
    var keys: map<string, nat>
    var tables: Tables
    var strings: map<nat, string>
    var next: nat

    ghost function Snapshot(): (h: Heap)
      reads this
    {
      Heap(keys, tables, strings, next)
    }

    ghost predicate Valid()
      reads this
    {
      WellFormed(Snapshot())
    }

    ghost function Contents(): (s: Store)
      reads this
    {
      Abstract(Snapshot())
    }

    ghost function Garbage(): (s: set<nat>)
      reads this
    {
      Leaked(Snapshot())
    }

    constructor ()
      ensures Valid() && Contents() == map[] && Garbage() == {}
    {
      keys, tables, strings, next := map[], map[], map[], 0;
    }

    // ---------------------------------------------------------------- allocation

    method CopyString(str: string) returns (a: nat)
      modifies this`strings, this`next
      ensures a == old(next) && Snapshot() == WithString(old(Snapshot()), CStr(str))
    {
      a := next;
      strings, next := strings[a := CStr(str)], next + 1;
    }

    /** Only a live string may be freed, so no string is freed twice. */
    method DeleteString(a: nat)
      requires a in strings
      modifies this`strings
      ensures Snapshot() == WithoutString(old(Snapshot()), a)
    {
      strings := strings - {a};
    }

    // ---------------------------------------------------------------- the field hashtable

    /** `Insert`: refuses a key that is present. */
    method TableInsert(t: nat, key: string, a: nat) returns (ok: bool)
      requires t in tables
      modifies this`tables
      ensures ok <==> CStr(key) !in old(tables[t])
      ensures Snapshot() == if ok then WithSlot(old(Snapshot()), t, CStr(key), a) else old(Snapshot())
    {
      ok := CStr(key) !in tables[t];
      if ok {
        tables := SetSlot(tables, t, CStr(key), a);
      }
    }

    /** `Update`: replaces the value of a key that is present and returns the old one. */
    method TableUpdate(t: nat, key: string, a: nat) returns (was: Option<nat>)
      requires t in tables
      modifies this`tables
      ensures was == if CStr(key) in old(tables[t]) then Some(old(tables[t][CStr(key)])) else None
      ensures Snapshot() == if was.Some? then WithSlot(old(Snapshot()), t, CStr(key), a) else old(Snapshot())
    {
      if CStr(key) !in tables[t] {
        return None;
      }
      was := Some(tables[t][CStr(key)]);
      tables := SetSlot(tables, t, CStr(key), a);
    }

    // ---------------------------------------------------------------- one field at a time

    /** The body of the loop in `Insert`. */
    method InsertField(k: string, t: nat, pair: Pair) returns (ok: bool)
      requires Valid() && k in keys && keys[k] == t && t in tables
      modifies this`tables, this`strings, this`next
      ensures Valid() && t in tables && Garbage() == old(Garbage())
      ensures ok <==> Name(pair) !in old(Contents())[k]
      ensures Contents() ==
              if ok then old(Contents())[k := old(Contents())[k][Name(pair) := Value(pair)]] else old(Contents())
    {
      ghost var h := Snapshot();
      FieldPresent(h, k, Name(pair));
      var value := CopyString(pair.1);
      ok := TableInsert(t, pair.0, value);
      if ok {
        AddField(h, k, Name(pair), Value(pair));
      } else {
        DiscardString(h, Value(pair));
        DeleteString(value);
      }
    }

    /** The body of the loop in `Update` on an existing record. */
    method UpdateField(k: string, t: nat, pair: Pair)
      requires Valid() && k in keys && keys[k] == t && t in tables
      modifies this`tables, this`strings, this`next
      ensures Valid() && t in tables && Garbage() == old(Garbage())
      ensures Contents() == old(Contents())[k := old(Contents())[k][Name(pair) := Value(pair)]]
    {
      ghost var h := Snapshot();
      var value := CopyString(pair.1);
      var was := TableUpdate(t, pair.0, value);
      if was.None? {
        AddField(h, k, Name(pair), Value(pair));
        var _ := TableInsert(t, pair.0, value);
      } else {
        ReplaceField(h, k, Name(pair), Value(pair));
        DeleteString(was.value);
      }
    }

    /** The body of the loop in `Update` on a new record: a refused string is dropped on the floor. */
    method FillField(k: string, t: nat, pair: Pair)
      requires Valid() && k in keys && keys[k] == t && t in tables
      modifies this`tables, this`strings, this`next
      ensures Valid() && t in tables
      ensures Contents() ==
              if Name(pair) in old(Contents())[k] then old(Contents())
              else old(Contents())[k := old(Contents())[k][Name(pair) := Value(pair)]]
      ensures Garbage() == old(Garbage()) + if Name(pair) in old(Contents())[k] then {old(next)} else {}
      ensures old(next) !in old(Garbage()) && old(next) < next
    {
      ghost var h := Snapshot();
      FieldPresent(h, k, Name(pair));
      StringAlone(h, Value(pair));
      var value := CopyString(pair.1);
      var ok := TableInsert(t, pair.0, value);
      if ok {
        AddField(h, k, Name(pair), Value(pair));
      }
    }

    // ---------------------------------------------------------------- the operations

    /** NewFieldHashtable, then key_table_->Insert. */
    method NewFieldHashtable(k: string) returns (t: nat)
      requires Valid() && k !in keys
      modifies this`keys, this`tables, this`next
      ensures Valid() && k in keys && keys[k] == t && t in tables
      ensures Contents() == old(Contents())[k := map[]] && Garbage() == old(Garbage())
    {
      ghost var h := Snapshot();
      t := next;
      tables, next := tables[t := map[]], next + 1;
      keys := keys[k := t];
      assert Snapshot() == WithTable(h, k);
      NewRecord(h, k);
    }

    method Insert(table: string, key: string, values: seq<Pair>) returns (status: Status)
      requires Valid()
      modifies this
      ensures Valid() && Garbage() == old(Garbage())
      ensures (Contents(), status) == Records.Insert(old(Contents()), KeyIndex(table, key), values)
    {
      var k := KeyIndex(table, key);
      var t;
      if k !in keys {
        t := NewFieldHashtable(k);
      } else {
        t := keys[k];
        KeyLinked(Snapshot(), k);
      }
      InsertSpec(old(Contents()), k, values);
      assert Contents() == Opened(old(Contents()), k);
      status := InsertAll(k, t, values);
    }

    method InsertAll(k: string, t: nat, values: seq<Pair>) returns (status: Status)
      requires Valid() && k in keys && keys[k] == t && t in tables
      modifies this`tables, this`strings, this`next
      ensures Valid() && Garbage() == old(Garbage())
      ensures (Contents(), status) == InsertFrom(old(Contents()), k, values)
    {
      assert values[0..] == values;
      for i := 0 to |values|
        invariant Valid() && t in tables && Garbage() == old(Garbage()) && k in Contents()
        invariant InsertFrom(Contents(), k, values[i..]) == InsertFrom(old(Contents()), k, values)
      {
        assert values[i..][0] == values[i] && values[i..][1..] == values[i + 1..];
        var ok := InsertField(k, t, values[i]);
        if !ok {
          return Conflict;
        }
      }
      return Ok;
    }

    /** Always succeeds. Leaks exactly when it creates a record from pairs that repeat a field. */
    method Update(table: string, key: string, values: seq<Pair>) returns (status: Status)
      requires Valid()
      modifies this
      ensures Valid() && status == Ok
      ensures Contents() == Records.Update(old(Contents()), KeyIndex(table, key), values)
      ensures old(Garbage()) <= Garbage()
      ensures Garbage() == old(Garbage()) <==> KeyIndex(table, key) in old(Contents()) || Distinct(values)
    {
      var k := KeyIndex(table, key);
      if k !in keys {
        UpdateNew(k, values);
      } else {
        UpdateOld(k, values);
      }
      return Ok;
    }

    method UpdateOld(k: string, values: seq<Pair>)
      requires Valid() && k in keys
      modifies this`tables, this`strings, this`next
      ensures Valid() && Garbage() == old(Garbage())
      ensures Contents() == old(Contents())[k := Overlay(old(Contents())[k], values)]
    {
      var t := keys[k];
      KeyLinked(Snapshot(), k);
      assert values[0..] == values;
      for i := 0 to |values|
        invariant Valid() && t in tables && Garbage() == old(Garbage()) && k in Contents()
        invariant OverlayFrom(Contents(), k, values[i..]) == OverlayFrom(old(Contents()), k, values)
      {
        assert values[i..][0] == values[i] && values[i..][1..] == values[i + 1..];
        UpdateField(k, t, values[i]);
      }
      OverlayFromIsOverlay(old(Contents()), k, values);
    }

    method UpdateNew(k: string, values: seq<Pair>)
      requires Valid() && k !in keys
      modifies this
      ensures Valid() && Contents() == old(Contents())[k := Fill(map[], values)]
      ensures old(Garbage()) <= Garbage() && (Garbage() == old(Garbage()) <==> Distinct(values))
    {
      var t := NewFieldHashtable(k);
      FillSpec(old(Contents()), k, values);
      assert Contents() == Opened(old(Contents()), k);
      FillAll(k, t, values);
    }

    method FillAll(k: string, t: nat, values: seq<Pair>)
      requires Valid() && k in keys && keys[k] == t && t in tables
      modifies this`tables, this`strings, this`next
      ensures Valid() && Contents() == FillFrom(old(Contents()), k, values)
      ensures old(Garbage()) <= Garbage()
      ensures Garbage() == old(Garbage()) <==> InsertFields(old(Contents())[k], values).1.Ok?
    {
      assert values[0..] == values;
      for i := 0 to |values|
        invariant Valid() && t in tables
        invariant Filling(Contents(), Garbage(), old(Contents()), old(Garbage()), k, values, i)
      {
        FillNext(k, t, values, i, old(Contents()), old(Garbage()));
      }
    }

    method FillNext(k: string, t: nat, values: seq<Pair>, i: nat, ghost s0: Store, ghost g0: set<nat>)
      requires Valid() && k in keys && keys[k] == t && t in tables && i < |values|
      requires Filling(Contents(), Garbage(), s0, g0, k, values, i)
      modifies this`tables, this`strings, this`next
      ensures Valid() && t in tables
      ensures Filling(Contents(), Garbage(), s0, g0, k, values, i + 1)
    {
      ghost var c, g, x := Contents(), Garbage(), next;
      FillField(k, t, values[i]);
      FillStep(c, g, s0, g0, k, values, i, Contents(), Garbage(), x);
    }

    /** Frees every string of a field table, then the table. */
    method DeleteFieldHashtable(t: nat)
      requires t in tables && tables[t].Values <= strings.Keys && Injective(tables[t])
      modifies this`tables, this`strings
      ensures tables == old(tables) - {t} && strings == old(strings) - old(tables[t]).Values
    {
      var slots := tables[t];
      var rest := slots;
      ghost var freed: set<nat> := {};
      while rest != map[]
        invariant Halfway(slots, rest, freed)
        invariant tables == old(tables)
        invariant strings == old(strings) - freed
        decreases |rest|
      {
        var f :| f in rest;
        FreeOne(slots, rest, freed, f);
        DeleteString(rest[f]);
        freed := freed + {rest[f]};
        RemoveOneKey(rest, f);
        rest := rest - {f};
      }
      AllFreed(slots, freed);
      tables := tables - {t};
    }

    static ghost predicate Injective(slots: Slots)
    {
      forall f, g :: f in slots && g in slots && slots[f] == slots[g] ==> f == g
    }

    /** The entries not in `rest` have had their strings freed, the others not. */
    static ghost predicate Halfway(slots: Slots, rest: Slots, freed: set<nat>)
    {
      && (forall f :: f in rest ==> f in slots && rest[f] == slots[f])
      && freed <= slots.Values
      && (forall f :: f in slots ==> (f in rest <==> slots[f] !in freed))
    }

    static lemma FreeOne(slots: Slots, rest: Slots, freed: set<nat>, f: string)
      requires Halfway(slots, rest, freed) && f in rest && Injective(slots)
      ensures rest[f] in slots.Values && rest[f] !in freed
      ensures Halfway(slots, rest - {f}, freed + {rest[f]})
    {
      assert slots[f] in slots.Values;
    }

    static lemma AllFreed(slots: Slots, freed: set<nat>)
      requires Halfway(slots, map[], freed)
      ensures freed == slots.Values
    {
      forall a | a in slots.Values
        ensures a in freed
      {
        var f :| f in slots && slots[f] == a;
      }
    }

    method Delete(table: string, key: string) returns (status: Status)
      requires Valid()
      modifies this
      ensures Valid() && Garbage() == old(Garbage())
      ensures (Contents(), status) == Records.Delete(old(Contents()), KeyIndex(table, key))
      ensures Contents() == old(Contents()) - {KeyIndex(table, key)}
      ensures status == if KeyIndex(table, key) in old(Contents()) then Ok else NoData
    {
      var k := KeyIndex(table, key);
      if k !in keys {
        return NoData;
      }
      KeyLinked(Snapshot(), k);
      DropRecord(Snapshot(), k);
      var t := keys[k];
      RecordStrings(Snapshot(), t);
      keys := keys - {k};
      DeleteFieldHashtable(t);
      return Ok;
    }

    static lemma RecordStrings(h: Heap, t: nat)
      requires WellFormed(h) && t in h.tables
      ensures h.tables[t].Values <= h.strings.Keys && Injective(h.tables[t])
    {
      forall f | f in h.tables[t]
        ensures Slot(h.tables, t, f, h.tables[t][f])
      {
      }
    }

    /** All fields (`None`, in table order) or the requested ones; `before` is the caller's result vector. */
    method Read(table: string, key: string, fields: Option<seq<string>>, before: seq<Pair>)
      returns (status: Status, result: seq<Pair>)
      requires Valid()
      ensures status == if KeyIndex(table, key) in Contents() then Ok else NoData
      ensures status == NoData ==> result == before
      ensures status == Ok ==> Answers(result, Contents()[KeyIndex(table, key)], fields)
    {
      var k := KeyIndex(table, key);
      if k !in keys {
        return NoData, before;
      }
      KeyLinked(Snapshot(), k);
      result := Answer(tables[keys[k]], fields);
      status := Ok;
    }

    /** All entries of a field table, or the requested ones. */
    method Answer(slots: Slots, fields: Option<seq<string>>) returns (result: seq<Pair>)
      requires Valid() && exists t :: t in tables && tables[t] == slots
      ensures Answers(result, FieldsAt(slots, strings), fields)
    {
      if fields.None? {
        result := Entries(slots);
      } else {
        result := ReadFields(slots, fields.value);
      }
    }

    /** The requested entries of a field table, in request order. */
    method ReadFields(slots: Slots, fields: seq<string>) returns (result: seq<Pair>)
      requires Valid() && exists t :: t in tables && tables[t] == slots
      ensures result == Select(FieldsAt(slots, strings), fields)
    {
      ghost var r := FieldsAt(slots, strings);
      ghost var t :| t in tables && tables[t] == slots;
      result := [];
      assert fields[0..] == fields;
      for i := 0 to |fields|
        invariant result + Select(r, fields[i..]) == Select(r, fields)
      {
        var f := fields[i];
        SelectNext(r, fields, i, result);
        if CStr(f) in slots {
          SlotBacked(Snapshot(), t, CStr(f));
          result := result + [(f, strings[slots[CStr(f)]])];
        } else {
          assert result + Found(r, f) == result;
        }
      }
    }

    /** Every entry of a field table, in some order. */
    method Entries(slots: Slots) returns (result: seq<Pair>)
      requires Valid() && exists t :: t in tables && tables[t] == slots
      ensures Lists(result, FieldsAt(slots, strings))
    {
      var rest := slots;
      result := [];
      ghost var t :| t in tables && tables[t] == slots;
      while rest != map[]
        invariant rest.Keys <= slots.Keys && forall f :: f in rest ==> rest[f] == slots[f]
        invariant |result| + |rest| == |slots|
        invariant forall i :: 0 <= i < |result| ==>
                    && result[i].0 in slots && result[i].0 !in rest
                    && result[i].1 == Lookup(strings, slots[result[i].0])
        invariant forall i, j :: 0 <= i < j < |result| ==> result[i].0 != result[j].0
        decreases |rest|
      {
        var f :| f in rest;
        SlotBacked(Snapshot(), t, f);
        result := result + [(f, strings[rest[f]])];
        RemoveOneKey(rest, f);
        rest := rest - {f};
      }
      assert |FieldsAt(slots, strings).Keys| == |slots.Keys|;
    }

    /** Some order in which the key table iterates. */
    method IterationOrder() returns (iter: seq<string>)
      ensures Enumerates(iter, keys.Keys)
    {
      iter := [];
      var rest := keys.Keys;
      while rest != {}
        invariant rest <= keys.Keys && Enumerates(iter, keys.Keys - rest)
        decreases |rest|
      {
        var k :| k in rest;
        iter := iter + [k];
        rest := rest - {k};
      }
    }

    /** `Entries(key, n)` of a key table that iterates in the order `iter`: find the key, then go on to the limit. */
    method KeyEntries(k: string, limit: nat, iter: seq<string>) returns (order: seq<string>)
      requires Enumerates(iter, keys.Keys)
      ensures ScanOrder(order, iter, k, limit)
    {
      order := [];
      if k !in keys {
        return;
      }
      var pos := 0;
      while iter[pos] != k
        invariant 0 <= pos < |iter| && k !in iter[..pos]
        decreases |iter| - pos
      {
        assert k in iter && k != iter[pos];
        pos := pos + 1;
      }
      ghost var p := pos;
      while pos < |iter| && |order| < limit
        invariant p <= pos <= |iter| && |order| <= limit && order == iter[p..pos]
        decreases |iter| - pos
      {
        order := order + [iter[pos]];
        pos := pos + 1;
      }
      assert Stretch(order, iter, p, k, limit);
    }

    /** A range scan; a negative length becomes a huge unsigned one and never limits. */
    method Scan(table: string, key: string, len: int, fields: Option<seq<string>>, iter: seq<string>)
      returns (status: Status, result: seq<seq<Pair>>, order: seq<string>)
      requires Valid() && Enumerates(iter, Contents().Keys)
      ensures status == Ok
      ensures ScanOrder(order, iter, KeyIndex(table, key), if len < 0 then |iter| else len)
      ensures ScanAnswers(result, Contents(), order, fields)
    {
      order := KeyEntries(KeyIndex(table, key), if len < 0 then |iter| else len, iter);
      ScanKeys(order, iter, KeyIndex(table, key), if len < 0 then |iter| else len, keys.Keys);
      result := ScanAll(order, fields);
      status := Ok;
    }

    static lemma ScanKeys(order: seq<string>, iter: seq<string>, k: string, limit: nat, keys: set<string>)
      requires Enumerates(iter, keys) && ScanOrder(order, iter, k, limit)
      ensures forall j :: 0 <= j < |order| ==> order[j] in keys
    {
      forall j | 0 <= j < |order|
        ensures order[j] in keys
      {
        var p :| 0 <= p < |iter| && Stretch(order, iter, p, k, limit);
        assert order[j] == iter[p + j];
      }
    }

    method ScanAll(order: seq<string>, fields: Option<seq<string>>) returns (result: seq<seq<Pair>>)
      requires Valid() && forall j :: 0 <= j < |order| ==> order[j] in keys
      ensures ScanAnswers(result, Contents(), order, fields)
    {
      ghost var store := Contents();
      result := [];
      for i := 0 to |order|
        invariant ScanAnswers(result, store, order[..i], fields)
      {
        var values := ScanOne(order[i], fields);
        ScanAnswersStep(result, store, order, i, fields, values);
        result := result + [values];
      }
      assert order[..|order|] == order;
    }

    method ScanOne(k: string, fields: Option<seq<string>>) returns (values: seq<Pair>)
      requires Valid() && k in keys
      ensures k in Contents() && Answers(values, Contents()[k], fields)
    {
      KeyLinked(Snapshot(), k);
      values := Answer(tables[keys[k]], fields);
    }
  }

  // ---------------------------------------------------------------- runs

  datatype Operation =
    | Inserting(table: string, key: string, values: seq<Pair>)
    | Updating(table: string, key: string, values: seq<Pair>)
    | Deleting(table: string, key: string)
    | Reading(table: string, key: string, fields: Option<seq<string>>)

  /** The store and status after one operation. */
  function Apply(s: Store, op: Operation): (r: (Store, Status))
  {
    var k := KeyIndex(op.table, op.key);
    match op
    case Inserting(_, _, values) => Records.Insert(s, k, values)
    case Updating(_, _, values) => (Records.Update(s, k, values), Ok)
    case Deleting(_, _) => Records.Delete(s, k)
    case Reading(_, _, _) => (s, if k in s then Ok else NoData)
  }

  function ApplyAll(s: Store, ops: seq<Operation>): (r: (Store, seq<Status>))
  {
    if ops == [] then (s, [])
    else
      var (s', statuses) := ApplyAll(s, ops[..|ops| - 1]);
      var (t, status) := Apply(s', ops[|ops| - 1]);
      (t, statuses + [status])
  }

  /** The operation creates a missing record from pairs that repeat a field. */
  predicate Leaky(s: Store, op: Operation)
  {
    op.Updating? && KeyIndex(op.table, op.key) !in s && !Distinct(op.values)
  }

  /** Some operation of the run is leaky where it happens. */
  predicate SomeLeaky(s: Store, ops: seq<Operation>)
  {
    ops != [] &&
    (SomeLeaky(s, ops[..|ops| - 1]) || Leaky(ApplyAll(s, ops[..|ops| - 1]).0, ops[|ops| - 1]))
  }

  /** With distinct names in every update no run is leaky. */
  lemma {:induction false} DistinctNeverLeaks(s: Store, ops: seq<Operation>)
    requires forall op :: op in ops && op.Updating? ==> Distinct(op.values)
    ensures !SomeLeaky(s, ops)
  {
    if ops == [] {
    } else {
      DistinctNeverLeaks(s, ops[..|ops| - 1]);
    }
  }

  /** What a read answers on a given store. */
  ghost predicate ReadAnswer(s: Store, op: Operation, result: seq<Pair>)
  {
    op.Reading? && KeyIndex(op.table, op.key) in s ==> Answers(result, s[KeyIndex(op.table, op.key)], op.fields)
  }

  /**
   Any sequential run: contents, status codes and the results of reads are those of the nested map,
   and garbage grows exactly when some update creates a missing record from repeated names.
   */
  method Replay(db: HashtableDB, ops: seq<Operation>) returns (statuses: seq<Status>, results: seq<seq<Pair>>)
    requires db.Valid()
    modifies db
    ensures db.Valid()
    ensures (db.Contents(), statuses) == ApplyAll(old(db.Contents()), ops)
    ensures |results| == |ops|
    ensures forall i :: 0 <= i < |ops| ==> ReadAnswer(ApplyAll(old(db.Contents()), ops[..i]).0, ops[i], results[i])
    ensures old(db.Garbage()) <= db.Garbage()
    ensures db.Garbage() == old(db.Garbage()) <==> !SomeLeaky(old(db.Contents()), ops)
  {
    statuses, results := [], [];
    ghost var s0, g0 := db.Contents(), db.Garbage();
    for i := 0 to |ops|
      invariant db.Valid()
      invariant Replayed(s0, g0, ops, i, db.Contents(), db.Garbage(), statuses, results)
    {
      ghost var s, g, before, answers := db.Contents(), db.Garbage(), statuses, results;
      var status, result := Perform(db, ops[i]);
      statuses, results := statuses + [status], results + [result];
      ReplayedStep(s0, g0, ops, i, s, g, before, answers, db.Contents(), db.Garbage(), status, result);
    }
    assert ops[..|ops|] == ops;
  }

  /** The first `i` operations have been replayed from contents `s0` and garbage `g0`. */
  ghost predicate Replayed(s0: Store, g0: set<nat>, ops: seq<Operation>, i: nat,
                           s: Store, g: set<nat>, statuses: seq<Status>, results: seq<seq<Pair>>)
  {
    && i <= |ops|
    && (s, statuses) == ApplyAll(s0, ops[..i])
    && Answered(s0, ops, i, results)
    && g0 <= g && (g == g0 <==> !SomeLeaky(s0, ops[..i]))
  }

  /** Each of the first `i` results is what a read answers where it happens. */
  ghost predicate Answered(s0: Store, ops: seq<Operation>, i: nat, results: seq<seq<Pair>>)
    requires i <= |ops|
  {
    |results| == i && forall j :: 0 <= j < i ==> ReadAnswer(ApplyAll(s0, ops[..j]).0, ops[j], results[j])
  }

  lemma AnsweredStep(s0: Store, ops: seq<Operation>, i: nat, results: seq<seq<Pair>>, result: seq<Pair>)
    requires i < |ops| && Answered(s0, ops, i, results) && ReadAnswer(ApplyAll(s0, ops[..i]).0, ops[i], result)
    ensures Answered(s0, ops, i + 1, results + [result])
  {
    var longer := results + [result];
    forall j | 0 <= j < i + 1
      ensures ReadAnswer(ApplyAll(s0, ops[..j]).0, ops[j], longer[j])
    {
      if j < i { assert longer[j] == results[j]; }
    }
  }

  lemma ReplayedStep(s0: Store, g0: set<nat>, ops: seq<Operation>, i: nat,
                     s: Store, g: set<nat>, statuses: seq<Status>, results: seq<seq<Pair>>,
                     s': Store, g': set<nat>, status: Status, result: seq<Pair>)
    requires Replayed(s0, g0, ops, i, s, g, statuses, results) && i < |ops|
    requires (s', status) == Apply(s, ops[i]) && ReadAnswer(s, ops[i], result)
    requires g <= g' && (g' == g <==> !Leaky(s, ops[i]))
    ensures Replayed(s0, g0, ops, i + 1, s', g', statuses + [status], results + [result])
  {
    OneMoreApplied(s0, ops, i);
    AnsweredStep(s0, ops, i, results, result);
  }

  lemma OneMoreApplied(s0: Store, ops: seq<Operation>, i: nat)
    requires i < |ops|
    ensures var (s, statuses) := ApplyAll(s0, ops[..i]);
            && ApplyAll(s0, ops[..i + 1]) == (Apply(s, ops[i]).0, statuses + [Apply(s, ops[i]).1])
            && (SomeLeaky(s0, ops[..i + 1]) <==> SomeLeaky(s0, ops[..i]) || Leaky(s, ops[i]))
  {
    assert ops[..i + 1][..i] == ops[..i] && ops[..i + 1][i] == ops[i];
  }

  method Perform(db: HashtableDB, op: Operation) returns (status: Status, result: seq<Pair>)
    requires db.Valid()
    modifies db
    ensures db.Valid() && (db.Contents(), status) == Apply(old(db.Contents()), op)
    ensures ReadAnswer(old(db.Contents()), op, result)
    ensures old(db.Garbage()) <= db.Garbage()
    ensures db.Garbage() == old(db.Garbage()) <==> !Leaky(old(db.Contents()), op)
  {
    result := [];
    match op
    case Inserting(table, key, values) => status := db.Insert(table, key, values);
    case Updating(table, key, values) => status := db.Update(table, key, values);
    case Deleting(table, key) => status := db.Delete(table, key);
    case Reading(table, key, fields) => status, result := db.Read(table, key, fields, result);
  }
}
