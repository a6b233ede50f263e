/**
 The memory of the hashtable database: a key table of field tables of value
 strings, with pointers as addresses. Well-formedness says who owns what; the
 lemmas say what each elementary change does to the records and to ownership.
 */
module HashtableHeap {
  import opened Records

  type Slots = map<string, nat>
  type Tables = map<nat, Slots>

  datatype Heap = Heap(
    keys: map<string, nat>,       // key index -> field table
    tables: Tables,               // field table -> field -> value string
    strings: map<nat, string>,    // value strings allocated and not yet freed
    next: nat)                    // no address from here on has been handed out

  /** Field `f` of table `t` points to the string at `a`. */
  predicate Slot(ts: Tables, t: nat, f: string, a: nat)
  {
    t in ts && f in ts[t] && ts[t][f] == a
  }

  ghost predicate Owned(ts: Tables, a: nat)
  {
    exists t, f :: Slot(ts, t, f, a)
  }

  /** No two slots share a string. */
  ghost predicate Unshared(ts: Tables)
  {
    forall t, f, u, g, a :: Slot(ts, t, f, a) && Slot(ts, u, g, a) ==> t == u && f == g
  }

  /** Every slot points to a live string. */
  ghost predicate Backed(ts: Tables, strings: map<nat, string>)
  {
    forall t, f, a :: Slot(ts, t, f, a) ==> a in strings
  }

  /** The live field tables are those of the key table, each under one key. */
  ghost predicate Linked(keys: map<string, nat>, ts: Tables)
  {
    && (forall k, l :: k in keys && l in keys && keys[k] == keys[l] ==> k == l)
    && keys.Values == ts.Keys
  }

  ghost predicate Bounded(h: Heap)
  {
    (forall t :: t in h.tables ==> t < h.next) && (forall a :: a in h.strings ==> a < h.next)
  }

  ghost predicate WellFormed(h: Heap)
  {
    Linked(h.keys, h.tables) && Unshared(h.tables) && Backed(h.tables, h.strings) && Bounded(h)
  }

  /** Allocated strings that no slot points to. */
  ghost function Leaked(h: Heap): (s: set<nat>)
  {
    set a | a in h.strings && !Owned(h.tables, a)
  }

  lemma SlotBacked(h: Heap, t: nat, f: string)
    requires WellFormed(h) && t in h.tables && f in h.tables[t]
    ensures h.tables[t][f] in h.strings
  {
    assert Slot(h.tables, t, f, h.tables[t][f]);
  }

  function Lookup(strings: map<nat, string>, a: nat): (s: string)
  {
    if a in strings then strings[a] else ""
  }

  /** The contents of a field table. */
  function FieldsAt(slots: Slots, strings: map<nat, string>): (r: Fields)
    ensures r.Keys == slots.Keys
  {
    map f | f in slots :: Lookup(strings, slots[f])
  }

  lemma KeyLinked(h: Heap, k: string)
    requires Linked(h.keys, h.tables) && k in h.keys
    ensures h.keys[k] in h.tables
  {
    assert h.keys[k] in h.keys.Values;
  }

  function SlotsOf(h: Heap, k: string): (s: Slots)
    requires k in h.keys
  {
    if h.keys[k] in h.tables then h.tables[h.keys[k]] else map[]
  }

  /** The store the heap represents. */
  function Abstract(h: Heap): (s: Store)
    ensures s.Keys == h.keys.Keys
  {
    map k | k in h.keys :: FieldsAt(SlotsOf(h, k), h.strings)
  }

  // ---------------------------------------------------------------- elementary changes

  function WithString(h: Heap, v: string): (r: Heap)
  {
    h.(strings := h.strings[h.next := v], next := h.next + 1)
  }

  function WithoutString(h: Heap, a: nat): (r: Heap)
  {
    h.(strings := h.strings - {a})
  }

  function SetSlot(ts: Tables, t: nat, f: string, a: nat): (r: Tables)
    requires t in ts
    ensures forall u, g, b :: Slot(r, u, g, b) <==> if u == t && g == f then b == a else Slot(ts, u, g, b)
  {
    var slots: Slots := ts[t][f := a];
    ts[t := slots]
  }

  function WithSlot(h: Heap, t: nat, f: string, a: nat): (r: Heap)
    requires t in h.tables
  {
    h.(tables := SetSlot(h.tables, t, f, a))
  }

  function WithTable(h: Heap, k: string): (r: Heap)
  {
    h.(keys := h.keys[k := h.next], tables := h.tables[h.next := map[]], next := h.next + 1)
  }

  /** Strings outside a table's slots do not matter to its contents. */
  lemma FieldsUnaffected(slots: Slots, s: map<nat, string>, s': map<nat, string>)
    requires forall f :: f in slots ==> Lookup(s, slots[f]) == Lookup(s', slots[f])
    ensures FieldsAt(slots, s) == FieldsAt(slots, s')
  {
  }

  /** Changing strings that no slot points to changes no record. */
  lemma UnownedStrings(h: Heap, h': Heap)
    requires WellFormed(h) && h'.keys == h.keys && h'.tables == h.tables
    requires forall a :: Owned(h.tables, a) ==> Lookup(h.strings, a) == Lookup(h'.strings, a)
    ensures Abstract(h') == Abstract(h)
  {
    forall k | k in h.keys
      ensures FieldsAt(SlotsOf(h', k), h'.strings) == FieldsAt(SlotsOf(h, k), h.strings)
    {
      forall f | f in SlotsOf(h, k)
        ensures Lookup(h.strings, SlotsOf(h, k)[f]) == Lookup(h'.strings, SlotsOf(h, k)[f])
      {
        assert Slot(h.tables, h.keys[k], f, SlotsOf(h, k)[f]);
      }
      FieldsUnaffected(SlotsOf(h, k), h.strings, h'.strings);
    }
  }

  /** A string allocated and not stored anywhere is leaked. */
  lemma StringAlone(h: Heap, v: string)
    requires WellFormed(h)
    ensures WellFormed(WithString(h, v)) && Abstract(WithString(h, v)) == Abstract(h)
    ensures Leaked(WithString(h, v)) == Leaked(h) + {h.next} && h.next !in h.strings
  {
    assert !Owned(h.tables, h.next) by { assert h.next !in h.strings; }
    UnownedStrings(h, WithString(h, v));
  }

  /** Freeing a leaked string changes nothing else. */
  lemma FreeLeaked(h: Heap, a: nat)
    requires WellFormed(h) && a in Leaked(h)
    ensures WellFormed(WithoutString(h, a)) && Abstract(WithoutString(h, a)) == Abstract(h)
    ensures Leaked(WithoutString(h, a)) == Leaked(h) - {a}
  {
    var h' := WithoutString(h, a);
    assert Backed(h'.tables, h'.strings) by {
      forall t, f, b | Slot(h.tables, t, f, b)
        ensures b in h'.strings
      {
        assert Owned(h.tables, b);
      }
    }
    UnownedStrings(h, h');
  }

  /** Storing a leaked string in a slot gives it an owner; the string it replaces, if any, is now leaked. */
  lemma StoreLeaked(h: Heap, k: string, f: string, a: nat)
    requires WellFormed(h) && k in h.keys && a in Leaked(h) && h.keys[k] in h.tables
    ensures var t := h.keys[k];
            var h' := WithSlot(h, t, f, a);
            && WellFormed(h')
            && Abstract(h') == Abstract(h)[k := Abstract(h)[k][f := h.strings[a]]]
            && Leaked(h') == Leaked(h) - {a} + if f in h.tables[t] then {h.tables[t][f]} else {}
  {
    var t := h.keys[k];
    var h' := WithSlot(h, t, f, a);
    StoreWellFormed(h, t, f, a);
    StoreOwners(h, t, f, a);
    assert h'.tables[t] == h.tables[t][f := a];
    assert FieldsAt(h'.tables[t], h.strings) == FieldsAt(h.tables[t], h.strings)[f := h.strings[a]];
    forall l | l in h.keys && l != k
      ensures SlotsOf(h', l) == SlotsOf(h, l)
    {
      assert h.keys[l] != t;
    }
  }

  lemma StoreWellFormed(h: Heap, t: nat, f: string, a: nat)
    requires WellFormed(h) && t in h.tables && a in Leaked(h)
    ensures WellFormed(WithSlot(h, t, f, a))
  {
    var ts := WithSlot(h, t, f, a).tables;
    forall u, g, b | Slot(h.tables, u, g, b)
      ensures b != a
    {
      assert Owned(h.tables, b);
    }
    assert Unshared(ts);
    assert ts.Keys == h.tables.Keys;
  }

  lemma StoreOwners(h: Heap, t: nat, f: string, a: nat)
    requires WellFormed(h) && t in h.tables && a in Leaked(h)
    ensures Leaked(WithSlot(h, t, f, a)) == Leaked(h) - {a} + if f in h.tables[t] then {h.tables[t][f]} else {}
  {
    var ts := WithSlot(h, t, f, a).tables;
    assert Slot(ts, t, f, a);
    if f in h.tables[t] {
      var was := h.tables[t][f];
      assert Slot(h.tables, t, f, was);
      assert Owned(h.tables, was) && was != a;
      assert forall u, g :: !Slot(ts, u, g, was);
    }
    forall b | Owned(h.tables, b) && !(f in h.tables[t] && b == h.tables[t][f])
      ensures Owned(ts, b)
    {
      var u, g :| Slot(h.tables, u, g, b);
      assert Slot(ts, u, g, b);
    }
    forall b | Owned(ts, b) && b != a
      ensures Owned(h.tables, b)
    {
      var u, g :| Slot(ts, u, g, b);
      assert Slot(h.tables, u, g, b);
    }
  }

  /** A new, empty record. */
  lemma NewRecord(h: Heap, k: string)
    requires WellFormed(h) && k !in h.keys
    ensures WellFormed(WithTable(h, k)) && Abstract(WithTable(h, k)) == Abstract(h)[k := map[]]
    ensures Leaked(WithTable(h, k)) == Leaked(h)
  {
    var h' := WithTable(h, k);
    assert h.next !in h.tables;
    NewTableSlots(h.tables, h.next);
    SameOwners(h.tables, h'.tables);
    LinkNew(h, k);
    assert Backed(h'.tables, h'.strings);
    NewRecordEmpty(h, k);
  }

  lemma NewTableSlots(ts: Tables, t: nat)
    requires t !in ts
    ensures forall u, g, b :: Slot(ts[t := map[]], u, g, b) <==> Slot(ts, u, g, b)
  {
  }

  lemma NewRecordEmpty(h: Heap, k: string)
    requires Linked(h.keys, h.tables) && k !in h.keys && h.next !in h.tables
    ensures Abstract(WithTable(h, k)) == Abstract(h)[k := map[]]
  {
    var h' := WithTable(h, k);
    forall l | l in h.keys
      ensures SlotsOf(h', l) == SlotsOf(h, l)
    {
      KeyLinked(h, l);
    }
    assert FieldsAt(SlotsOf(h', k), h.strings) == map[];
  }

  lemma SameOwners(ts: Tables, ts': Tables)
    requires forall u, g, b :: Slot(ts', u, g, b) <==> Slot(ts, u, g, b)
    ensures forall a :: Owned(ts', a) <==> Owned(ts, a)
    ensures Unshared(ts') <==> Unshared(ts)
  {
    forall a
      ensures Owned(ts', a) <==> Owned(ts, a)
    {
      if Owned(ts, a) {
        var u, g :| Slot(ts, u, g, a);
        assert Slot(ts', u, g, a);
      }
    }
  }

  lemma LinkNew(h: Heap, k: string)
    requires Linked(h.keys, h.tables) && k !in h.keys && h.next !in h.tables
    ensures Linked(WithTable(h, k).keys, WithTable(h, k).tables)
  {
    var keys, ts := WithTable(h, k).keys, WithTable(h, k).tables;
    assert ts.Keys == h.tables.Keys + {h.next};
    forall t
      ensures t in keys.Values <==> t in ts.Keys
    {
      if t in keys.Values {
        var l :| l in keys && keys[l] == t;
        if l != k { KeyLinked(h, l); }
      }
      if t in h.tables.Keys {
        assert t in h.keys.Values;
        var l :| l in h.keys && h.keys[l] == t;
        assert l in keys && keys[l] == t;
      }
      if t == h.next { assert keys[k] == t; }
    }
    forall l, m | l in keys && m in keys && keys[l] == keys[m]
      ensures l == m
    {
      if l in h.keys { KeyLinked(h, l); }
      if m in h.keys { KeyLinked(h, m); }
    }
  }

  /** A record unlinked from the key table, its strings freed and its table with it. */
  function WithoutRecord(h: Heap, k: string): (r: Heap)
    requires k in h.keys && h.keys[k] in h.tables
  {
    Heap(h.keys - {k}, h.tables - {h.keys[k]}, h.strings - h.tables[h.keys[k]].Values, h.next)
  }

  lemma DropRecord(h: Heap, k: string)
    requires WellFormed(h) && k in h.keys && h.keys[k] in h.tables
    ensures WellFormed(WithoutRecord(h, k)) && Abstract(WithoutRecord(h, k)) == Abstract(h) - {k}
    ensures Leaked(WithoutRecord(h, k)) == Leaked(h)
  {
    var h', t := WithoutRecord(h, k), h.keys[k];
    assert forall u, g, b :: Slot(h'.tables, u, g, b) <==> Slot(h.tables, u, g, b) && u != t;
    LinkDrop(h, k);
    forall u, g, b | Slot(h'.tables, u, g, b)
      ensures b in h'.strings
    {
      ValueSlot(h.tables, t, b);
    }
    DropOwners(h, k);
    forall l | l in h'.keys
      ensures FieldsAt(SlotsOf(h', l), h'.strings) == FieldsAt(SlotsOf(h, l), h.strings)
    {
      KeyLinked(h, l);
      assert h.keys[l] != t;
      forall f | f in SlotsOf(h, l)
        ensures SlotsOf(h, l)[f] in h'.strings
      {
        assert Slot(h'.tables, h.keys[l], f, SlotsOf(h, l)[f]);
      }
      FieldsUnaffected(SlotsOf(h, l), h.strings, h'.strings);
    }
  }

  lemma ValueSlot(ts: Tables, t: nat, a: nat)
    requires t in ts
    ensures a in ts[t].Values <==> exists f :: Slot(ts, t, f, a)
  {
    if a in ts[t].Values {
      var f :| f in ts[t] && ts[t][f] == a;
      assert Slot(ts, t, f, a);
    }
  }

  lemma LinkDrop(h: Heap, k: string)
    requires Linked(h.keys, h.tables) && k in h.keys
    ensures Linked(h.keys - {k}, h.tables - {h.keys[k]})
  {
    var keys, t := h.keys - {k}, h.keys[k];
    forall u
      ensures u in keys.Values <==> u in h.tables.Keys - {t}
    {
      if u in keys.Values {
        var l :| l in keys && keys[l] == u;
        KeyLinked(h, l);
      }
      if u in h.tables.Keys - {t} {
        assert u in h.keys.Values;
        var l :| l in h.keys && h.keys[l] == u;
        assert l in keys && keys[l] == u;
      }
    }
  }

  lemma DropOwners(h: Heap, k: string)
    requires WellFormed(h) && k in h.keys && h.keys[k] in h.tables
    ensures Leaked(WithoutRecord(h, k)) == Leaked(h)
  {
    var h', t := WithoutRecord(h, k), h.keys[k];
    assert forall u, g, b :: Slot(h'.tables, u, g, b) <==> Slot(h.tables, u, g, b) && u != t;
    forall a | a in h.strings
      ensures a in Leaked(h') <==> a in Leaked(h)
    {
      ValueSlot(h.tables, t, a);
      if Owned(h.tables, a) && a in h'.strings {
        var u, g :| Slot(h.tables, u, g, a);
        assert Slot(h'.tables, u, g, a);
      }
      if Owned(h'.tables, a) {
        var u, g :| Slot(h'.tables, u, g, a);
        assert Slot(h.tables, u, g, a);
      }
    }
  }

  // ---------------------------------------------------------------- writing one field

  /** A fresh string stored in a slot that was free. */
  lemma AddField(h: Heap, k: string, f: string, v: string)
    requires WellFormed(h) && k in h.keys && h.keys[k] in h.tables && f !in h.tables[h.keys[k]]
    ensures var h' := WithSlot(WithString(h, v), h.keys[k], f, h.next);
            && WellFormed(h') && Leaked(h') == Leaked(h)
            && Abstract(h') == Abstract(h)[k := Abstract(h)[k][f := v]]
  {
    StringAlone(h, v);
    StoreLeaked(WithString(h, v), k, f, h.next);
    assert h.next !in Leaked(h);
  }

  /** A fresh string stored over an old one, which is then freed. */
  lemma ReplaceField(h: Heap, k: string, f: string, v: string)
    requires WellFormed(h) && k in h.keys && h.keys[k] in h.tables && f in h.tables[h.keys[k]]
    ensures var was := h.tables[h.keys[k]][f];
            var h' := WithSlot(WithString(h, v), h.keys[k], f, h.next);
            && was in h'.strings
            && WellFormed(WithoutString(h', was)) && Leaked(WithoutString(h', was)) == Leaked(h)
            && Abstract(WithoutString(h', was)) == Abstract(h)[k := Abstract(h)[k][f := v]]
  {
    var was := h.tables[h.keys[k]][f];
    var h' := WithSlot(WithString(h, v), h.keys[k], f, h.next);
    StringAlone(h, v);
    StoreLeaked(WithString(h, v), k, f, h.next);
    SlotBacked(h, h.keys[k], f);
    assert Owned(h.tables, was) by { assert Slot(h.tables, h.keys[k], f, was); }
    assert was !in Leaked(h) && h.next !in Leaked(h);
    FreeLeaked(h', was);
  }

  /** A fresh string freed again. */
  lemma DiscardString(h: Heap, v: string)
    requires WellFormed(h)
    ensures WellFormed(WithoutString(WithString(h, v), h.next))
    ensures Abstract(WithoutString(WithString(h, v), h.next)) == Abstract(h)
    ensures Leaked(WithoutString(WithString(h, v), h.next)) == Leaked(h)
  {
    StringAlone(h, v);
    FreeLeaked(WithString(h, v), h.next);
    assert h.next !in Leaked(h);
  }

  /** The fields of a record are those of its table. */
  lemma FieldPresent(h: Heap, k: string, f: string)
    requires WellFormed(h) && k in h.keys && h.keys[k] in h.tables
    ensures f in Abstract(h)[k] <==> f in h.tables[h.keys[k]]
  {
  }
}
