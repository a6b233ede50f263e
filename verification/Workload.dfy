/**
 The workload of `core/core_workload.{h,cc}`: how keys, fields and operations
 are named and chosen.
 */
module Workload {
  import opened Options
  import opened Fnv
  import opened KeyName
  import opened CStrings
  import opened Records
  import opened Generators
  import opened Reals

  // ---------------------------------------------------------------- keys

  /** The settings that determine the names in the database. */
  datatype Naming = Naming(table: string, ordered: bool, padding: int)

  /** The record index of a key number. */
  function Index(w: Naming, key: uint64): (s: string)
  {
    KeyIndex(w.table, BuildKeyName(w.ordered, w.padding, key))
  }

  function Indexer(w: Naming): (f: uint64 -> string)
    ensures forall k: uint64 :: f(k) == Index(w, k)
  {
    (k: uint64) => Index(w, k)
  }

  lemma KeyNamePlain(ordered: bool, padding: int, key: uint64)
    ensures NUL !in BuildKeyName(ordered, padding, key)
  {
    PaddedRoundTrip(if ordered then key else Hash(key), padding);
  }

  lemma NamesDiffer(w: Naming, x: uint64, y: uint64) returns (a: string, b: string)
    requires x < TWO32 && y < TWO32
    ensures a == BuildKeyName(w.ordered, w.padding, x) && b == BuildKeyName(w.ordered, w.padding, y)
    ensures NUL !in a && NUL !in b && (a == b <==> x == y)
  {
    KeyNamePlain(w.ordered, w.padding, x);
    KeyNamePlain(w.ordered, w.padding, y);
    SmallQuotient(x);
    SmallQuotient(y);
    KeyNameInjective(w.ordered, w.padding, x, y);
    a, b := BuildKeyName(w.ordered, w.padding, x), BuildKeyName(w.ordered, w.padding, y);
  }

  lemma SmallQuotient(x: nat)
    requires x < TWO32
    ensures x / TWO32 == 0
  {
  }

  /** Records of distinct key numbers below 2^32 never collide in the database. */
  lemma IndexInjective(w: Naming, x: uint64, y: uint64)
    requires NUL !in w.table && x < TWO32 && y < TWO32
    ensures Index(w, x) == Index(w, y) <==> x == y
  {
    var a, b := NamesDiffer(w, x, y);
    KeyIndexInjective(w.table, a, b);
  }

  // ---------------------------------------------------------------- fields

  const FIELD: string := "field"

  function FieldName(i: nat): (s: string)
  {
    FIELD + ToString(i)
  }

  lemma FieldNamePlain(i: nat)
    ensures NUL !in FieldName(i)
  {
    DecimalOfToString(i);
  }

  lemma FieldNameInjective(i: nat, j: nat)
    ensures CStr(FieldName(i)) == CStr(FieldName(j)) <==> i == j
  {
    FieldNamePlain(i);
    FieldNamePlain(j);
    if FieldName(i) == FieldName(j) {
      assert FieldName(i)[|FIELD|..] == ToString(i) && FieldName(j)[|FIELD|..] == ToString(j);
      DecimalOfToString(i);
      DecimalOfToString(j);
    }
  }

  /** The pairs written by `BuildValues`: one per field, each name once. */
  function Values(payload: seq<string>): (values: seq<Pair>)
    ensures |values| == |payload|
    ensures forall i :: 0 <= i < |payload| ==> values[i] == (FieldName(i), payload[i])
  {
    seq(|payload|, i requires 0 <= i < |payload| => (FieldName(i), payload[i]))
  }

  lemma ValuesDistinct(payload: seq<string>)
    ensures Distinct(Values(payload))
  {
    forall i, j | 0 <= i < j < |payload|
      ensures Name(Values(payload)[i]) != Name(Values(payload)[j])
    {
      FieldNameInjective(i, j);
    }
  }

  /** The loop of `BuildValues`; `payload` holds the randomly drawn field contents. */
  method BuildValues(payload: seq<string>) returns (values: seq<Pair>)
    ensures values == Values(payload) && Distinct(values)
    ensures |values| == |payload| && forall i :: 0 <= i < |payload| ==> values[i] == ("field" + ToString(i), payload[i])
  {
    values := [];
    for i := 0 to |payload|
      invariant values == Values(payload)[..i]
    {
      values := values + [(FIELD + ToString(i), payload[i])];
    }
    ValuesDistinct(payload);
  }

  /** Under a new key the whole record goes in. */
  lemma NewInsert(s: Store, k: string, payload: seq<string>)
    requires k !in s
    ensures Insert(s, k, Values(payload)) == (s[k := Overlay(map[], Values(payload))], Ok)
  {
    var values := Values(payload);
    ValuesDistinct(payload);
    InsertOkIff(map[], values);
    InsertKeepsPrefix(map[], values);
    assert values[..|values|] == values;
  }

  /** `BuildUpdate`: one drawn field with drawn contents. */
  function OneValue(field: nat, content: string): (values: seq<Pair>)
    ensures Distinct(values)
  {
    [(FieldName(field), content)]
  }

  lemma {:induction false} LastWriteOf(values: seq<Pair>, j: nat)
    requires Distinct(values) && j < |values|
    ensures LastWrite(values, Name(values[j])) == Some(Value(values[j]))
    decreases |values|
  {
    var rest := values[1..];
    assert forall i :: 0 <= i < |rest| ==> rest[i] == values[i + 1];
    if j > 0 {
      LastWriteOf(rest, j - 1);
    }
  }

  /** Writing all fields: field j holds payload j up to its first NUL, and every other field is kept. */
  ghost predicate AllWritten(r: Fields, r': Fields, payload: seq<string>)
  {
    && (forall j :: 0 <= j < |payload| ==> HoldsValue(r', "field" + ToString(j), CStr(payload[j])))
    && (forall f :: (forall j :: 0 <= j < |payload| ==> f != "field" + ToString(j)) ==> SameField(r, r', f))
  }

  predicate HoldsValue(r: Fields, f: string, v: string)
  {
    f in r && r[f] == v
  }

  predicate SameField(r: Fields, r': Fields, f: string)
  {
    (f in r' <==> f in r) && (f in r ==> r'[f] == r[f])
  }

  lemma {:induction false} ValuesOverlay(r: Fields, payload: seq<string>)
    ensures AllWritten(r, Overlay(r, Values(payload)), payload)
  {
    var values := Values(payload);
    ValuesDistinct(payload);
    forall j | 0 <= j < |payload|
      ensures HoldsValue(Overlay(r, values), "field" + ToString(j), CStr(payload[j]))
    {
      FieldNamePlain(j);
      LastWriteOf(values, j);
      OverlayLookup(r, values, "field" + ToString(j));
    }
    forall f | forall j :: 0 <= j < |payload| ==> f != "field" + ToString(j)
      ensures SameField(r, Overlay(r, values), f)
    {
      OtherName(payload, f);
      OverlayLookup(r, values, f);
    }
  }

  lemma OtherName(payload: seq<string>, f: string)
    requires forall j :: 0 <= j < |payload| ==> f != "field" + ToString(j)
    ensures LastWrite(Values(payload), f) == None
  {
    forall j | 0 <= j < |payload|
      ensures Name(Values(payload)[j]) != f
    {
      FieldNamePlain(j);
    }
  }

  /** Writing one field: it holds the content up to its first NUL, and every other field is kept. */
  lemma OneValueOverlay(r: Fields, field: nat, content: string)
    ensures Overlay(r, OneValue(field, content)) == r["field" + ToString(field) := CStr(content)]
  {
    FieldNamePlain(field);
    var one := OneValue(field, content);
    assert one[1..] == [];
  }

  /** A record made by `BuildValues` has exactly the fields field0 to field(n-1). */
  lemma {:induction false} LoadedFields(payload: seq<string>, f: string)
    ensures f in Overlay(map[], Values(payload)) <==> exists i :: 0 <= i < |payload| && f == FieldName(i)
  {
    OverlayLookup(map[], Values(payload), f);
    if LastWrite(Values(payload), f).Some? {
      var i :| 0 <= i < |payload| && Name(Values(payload)[i]) == f;
      FieldNamePlain(i);
    }
    if i :| 0 <= i < |payload| && f == FieldName(i) {
      FieldNamePlain(i);
      assert Name(Values(payload)[i]) == f;
    }
  }

  lemma DoublePrefix(i: nat, j: nat)
    ensures FIELD + FieldName(j) != FieldName(i)
  {
    DecimalOfToString(i);
    assert FieldName(i)[5] == ToString(i)[0];
    assert (FIELD + FieldName(j))[5] == 'f';
  }

  /**
   The client asks for "field" + NextFieldName(), which already starts with "field": on a record
   made by `BuildValues` a single-field read finds nothing, whatever field was drawn.
   */
  lemma SingleFieldReadFindsNothing(payload: seq<string>, j: nat)
    ensures Select(Overlay(map[], Values(payload)), [FIELD + FieldName(j)]) == []
  {
    WorkloadNamesPlain(payload, 0, "");
    OverlayPlain(map[], Values(payload));
    PlainRecordReadFindsNothing(Overlay(map[], Values(payload)), j);
  }

  /** Every field of every record is named field(i) for some i. */
  ghost predicate PlainFields(r: Fields)
  {
    forall f :: f in r ==> exists i: nat :: f == FieldName(i)
  }

  ghost predicate PlainRecords(s: Store)
  {
    forall k :: k in s ==> PlainFields(s[k])
  }

  ghost predicate PlainNames(values: seq<Pair>)
  {
    forall j :: 0 <= j < |values| ==> exists i: nat :: Name(values[j]) == FieldName(i)
  }

  lemma WorkloadNamesPlain(payload: seq<string>, field: nat, content: string)
    ensures PlainNames(Values(payload)) && PlainNames(OneValue(field, content))
  {
    FieldNamePlain(field);
    forall j | 0 <= j < |payload|
      ensures Name(Values(payload)[j]) == FieldName(j)
    {
      FieldNamePlain(j);
    }
  }

  lemma {:induction false} OverlayPlain(r: Fields, values: seq<Pair>)
    requires PlainFields(r) && PlainNames(values)
    ensures PlainFields(Overlay(r, values)) && PlainFields(Fill(r, values))
    decreases |values|
  {
    if values == [] {
    } else {
      var rest := values[1..];
      assert PlainNames(rest) by {
        assert forall j :: 0 <= j < |rest| ==> rest[j] == values[j + 1];
      }
      OverlayPlain(r, rest);
      OverlayPlain(r[Name(values[0]) := Value(values[0])], rest);
    }
  }

  /** What the workload writes keeps all field names plain. */
  lemma StorePlain(s: Store, k: string, values: seq<Pair>)
    requires PlainRecords(s) && PlainNames(values)
    ensures PlainRecords(Insert(s, k, values).0) && PlainRecords(Update(s, k, values))
  {
    var r := Record(s, k);
    var n := FirstConflict(r, values);
    assert PlainNames(values[..n]);
    InsertKeepsPrefix(r, values);
    OverlayPlain(r, values[..n]);
    OverlayPlain(r, values);
  }

  /** On such a record the client's single-field read finds nothing, whatever field was drawn. */
  lemma PlainRecordReadFindsNothing(r: Fields, j: nat)
    requires PlainFields(r)
    ensures Select(r, [FIELD + FieldName(j)]) == []
  {
    var f := FIELD + FieldName(j);
    FieldNamePlain(j);
    assert NUL !in f;
    forall i: nat
      ensures f != FieldName(i)
    {
      DoublePrefix(i, j);
    }
    var one := [f];
    assert |one[1..]| == 0;
  }

  // ---------------------------------------------------------------- operations

  datatype Op = READ | UPDATE | INSERT | SCAN | READMODIFYWRITE

  /** `Init` registers each operation with a positive proportion, in this order. */
  function Registered(op: Op, proportion: real): (s: seq<(Op, real)>)
  {
    if proportion > 0.0 then [(op, proportion)] else []
  }

  function Wire(read: real, update: real, insert: real, scan: real, rmw: real): (s: seq<(Op, real)>)
  {
    Registered(READ, read) + Registered(UPDATE, update) + Registered(INSERT, insert) +
    Registered(SCAN, scan) + Registered(READMODIFYWRITE, rmw)
  }

  /** The `AddValue` calls of `Init`. */
  method WireOperations(read: real, update: real, insert: real, scan: real, rmw: real)
    returns (chooser: DiscreteGenerator<Op>)
    ensures fresh(chooser) && chooser.Valid() && chooser.values == Wire(read, update, insert, scan, rmw)
  {
    chooser := new DiscreteGenerator<Op>();
    Register(chooser, READ, read);
    Register(chooser, UPDATE, update);
    Register(chooser, INSERT, insert);
    Register(chooser, SCAN, scan);
    Register(chooser, READMODIFYWRITE, rmw);
  }

  method Register(chooser: DiscreteGenerator<Op>, op: Op, proportion: real)
    requires chooser.Valid()
    modifies chooser
    ensures chooser.Valid() && chooser.values == old(chooser.values) + Registered(op, proportion)
  {
    if proportion > 0.0 {
      chooser.AddValue(op, proportion);
    }
  }

  predicate AllPositive(weights: seq<real>)
  {
    forall i :: 0 <= i < |weights| ==> weights[i] > 0.0
  }

  lemma {:induction false} PositiveTotal(weights: seq<real>)
    requires AllPositive(weights) && weights != []
    ensures Total(weights) > 0.0
  {
    if |weights| == 1 {
    } else {
      PositiveTotal(weights[..|weights| - 1]);
    }
  }

  function Proportion(op: Op, read: real, update: real, insert: real, scan: real, rmw: real): (p: real)
  {
    match op
    case READ => read
    case UPDATE => update
    case INSERT => insert
    case SCAN => scan
    case READMODIFYWRITE => rmw
  }

  lemma WireSpec(read: real, update: real, insert: real, scan: real, rmw: real, i: nat)
    requires i < |Wire(read, update, insert, scan, rmw)|
    ensures var (op, w) := Wire(read, update, insert, scan, rmw)[i];
            w == Proportion(op, read, update, insert, scan, rmw) > 0.0
  {
  }

  /** The order in which `Init` registers operations. */
  function Place(op: Op): (n: nat)
  {
    match op
    case READ => 0
    case UPDATE => 1
    case INSERT => 2
    case SCAN => 3
    case READMODIFYWRITE => 4
  }

  /** Each operation of positive proportion is registered exactly once, in order, and no other is. */
  lemma WireExactly(read: real, update: real, insert: real, scan: real, rmw: real)
    ensures var values := Wire(read, update, insert, scan, rmw);
            && (forall i, j :: 0 <= i < j < |values| ==> Place(values[i].0) < Place(values[j].0))
            && (forall op :: (op, Proportion(op, read, update, insert, scan, rmw)) in values <==>
                             Proportion(op, read, update, insert, scan, rmw) > 0.0)
  {
  }

  /** The operations with their proportions, registered or not. */
  function Menu(read: real, update: real, insert: real, scan: real, rmw: real): (all: seq<(Op, real)>)
  {
    [(READ, read), (UPDATE, update), (INSERT, insert), (SCAN, scan), (READMODIFYWRITE, rmw)]
  }

  function Positive(all: seq<(Op, real)>): (s: seq<(Op, real)>)
  {
    if all == [] then [] else Positive(all[..|all| - 1]) + Registered(all[|all| - 1].0, all[|all| - 1].1)
  }

  /** The sum of the positive proportions. */
  function Share(all: seq<(Op, real)>): (t: real)
    ensures t >= 0.0
  {
    if all == [] then 0.0
    else Share(all[..|all| - 1]) + if all[|all| - 1].1 > 0.0 then all[|all| - 1].1 else 0.0
  }

  lemma WireIsPositive(read: real, update: real, insert: real, scan: real, rmw: real)
    ensures Wire(read, update, insert, scan, rmw) == Positive(Menu(read, update, insert, scan, rmw))
  {
    var m1 := [(READ, read)];
    var m2 := m1 + [(UPDATE, update)];
    var m3 := m2 + [(INSERT, insert)];
    var m4 := m3 + [(SCAN, scan)];
    PositiveAppend([], READ, read);
    assert [] + [(READ, read)] == m1;
    PositiveAppend(m1, UPDATE, update);
    PositiveAppend(m2, INSERT, insert);
    PositiveAppend(m3, SCAN, scan);
    PositiveAppend(m4, READMODIFYWRITE, rmw);
    assert Menu(read, update, insert, scan, rmw) == m4 + [(READMODIFYWRITE, rmw)];
    assert Positive([]) + Registered(READ, read) == Registered(READ, read);
  }

  lemma PositiveAppend(all: seq<(Op, real)>, op: Op, proportion: real)
    ensures Positive(all + [(op, proportion)]) == Positive(all) + Registered(op, proportion)
  {
    assert (all + [(op, proportion)])[..|all|] == all;
  }

  lemma {:induction false} TotalIsShare(all: seq<(Op, real)>)
    ensures Total(Weights(Positive(all))) == Share(all)
  {
    if all == [] {
    } else {
      var front, last := Positive(all[..|all| - 1]), all[|all| - 1];
      TotalIsShare(all[..|all| - 1]);
      if last.1 > 0.0 {
        assert Weights(front + [last])[..|front|] == Weights(front);
      } else {
        assert front + [] == front;
      }
    }
  }

  lemma {:induction false} PositivePrefix(all: seq<(Op, real)>, j: nat)
    requires j <= |all|
    ensures Positive(all[..j]) <= Positive(all)
  {
    var n := |all|;
    if j == n {
      assert all[..j] == all;
    } else {
      PositivePrefix(all[..n - 1], j);
      assert all[..n - 1][..j] == all[..j];
    }
  }

  lemma {:induction false} PrefixIsTotal(weights: seq<real>, i: nat)
    requires i <= |weights|
    ensures Prefix(weights, i) == Total(weights[..i])
  {
    if i == 0 {
    } else {
      PrefixIsTotal(weights, i - 1);
      PrefixLast(weights, i - 1);
      assert weights[..i][..i - 1] == weights[..i - 1];
    }
  }

  lemma SharePrefix(all: seq<(Op, real)>, j: nat)
    requires j <= |all|
    ensures var i := |Positive(all[..j])|;
            i <= |Positive(all)| && Prefix(Weights(Positive(all)), i) == Share(all[..j])
  {
    PositivePrefix(all, j);
    var front, w := Positive(all[..j]), Weights(Positive(all));
    PrefixIsTotal(w, |front|);
    assert w[..|front|] == Weights(front);
    TotalIsShare(all[..j]);
  }

  /** The draw lies in the stretch of [0, 1) that belongs to `own` after `before`, out of `whole`. */
  predicate InShare(u: real, before: real, own: real, whole: real)
    requires whole > 0.0
  {
    before / whole <= u < (before + own) / whole
  }

  /** A draw picks an operation exactly when it falls in that operation's share of [0, 1). */
  lemma OperationOwns(all: seq<(Op, real)>, j: nat, u: real)
    requires j < |all| && all[j].1 > 0.0 && Share(all) > 0.0 && 0.0 <= u < 1.0
    ensures var values := Positive(all);
            var i := |Positive(all[..j])|;
            && i < |values| && values[i] == all[j]
            && (Choose(Weights(values), Total(Weights(values)), Some(u)) == Some(i) <==>
                InShare(u, Share(all[..j]), all[j].1, Share(all)))
  {
    RegisteredAt(all, j);
    TotalIsShare(all);
    AllRegisteredPositive(all);
    OwnsSlice(Weights(Positive(all)), Share(all), u, |Positive(all[..j])|, Share(all[..j]), all[j].1);
  }

  /** Where an operation of positive proportion is registered, and what comes before it. */
  lemma RegisteredAt(all: seq<(Op, real)>, j: nat)
    requires j < |all| && all[j].1 > 0.0
    ensures var values, i := Positive(all), |Positive(all[..j])|;
            && i < |values| && values[i] == all[j]
            && Prefix(Weights(values), i) == Share(all[..j])
            && Prefix(Weights(values), i + 1) == Share(all[..j]) + all[j].1
  {
    OneMoreRegistered(all, j);
    var front, values := Positive(all[..j]), Positive(all);
    PositivePrefix(all, j + 1);
    assert (front + [all[j]])[|front|] == all[j];
    SharePrefix(all, j);
    SharePrefix(all, j + 1);
  }

  lemma OneMoreRegistered(all: seq<(Op, real)>, j: nat)
    requires j < |all| && all[j].1 > 0.0
    ensures Positive(all[..j + 1]) == Positive(all[..j]) + [all[j]]
    ensures |Positive(all[..j + 1])| == |Positive(all[..j])| + 1
    ensures Share(all[..j + 1]) == Share(all[..j]) + all[j].1
  {
    assert all[..j + 1][..j] == all[..j] && all[..j + 1][j] == all[j];
    var (op, p) := all[j];
    assert Registered(op, p) == [(op, p)] == [all[j]];
  }

  lemma OwnsSlice(weights: seq<real>, sum: real, u: real, i: nat, before: real, own: real)
    requires NonNegative(weights) && sum > 0.0 && u >= 0.0 && i < |weights|
    requires Prefix(weights, i) == before && Prefix(weights, i + 1) == before + own
    ensures Choose(weights, sum, Some(u)) == Some(i) <==> InShare(u, before, own, sum)
  {
    ChooseIsPick(weights, sum, u);
    PickIsSlice(weights, sum, u, i);
    QuotientCompare(before, sum, u);
    QuotientCompare(before + own, sum, u);
    QuotientCompare(Prefix(weights, i), sum, u);
    QuotientCompare(Prefix(weights, i + 1), sum, u);
  }

  lemma {:induction false} AllRegisteredPositive(all: seq<(Op, real)>)
    ensures NonNegative(Weights(Positive(all)))
  {
    if all == [] {
    } else {
      AllRegisteredPositive(all[..|all| - 1]);
      var front := Positive(all[..|all| - 1]);
      assert forall i :: 0 <= i < |front| ==> Weights(front)[i] == front[i].1;
    }
  }

  /** The same for the five operations of a workload, in the order of the menu. */
  lemma WorkloadOwns(read: real, update: real, insert: real, scan: real, rmw: real, op: Op, u: real) returns (i: nat)
    requires 0.0 <= u < 1.0 && Proportion(op, read, update, insert, scan, rmw) > 0.0
    ensures var values := Wire(read, update, insert, scan, rmw);
            var all, w := Menu(read, update, insert, scan, rmw), Weights(values);
            var before, whole := Share(all[..Place(op)]), Share(all);
            && whole > 0.0 && i < |values| && values[i].0 == op
            && (Choose(w, Total(w), Some(u)) == Some(i) <==>
                InShare(u, before, Proportion(op, read, update, insert, scan, rmw), whole))
  {
    var all := Menu(read, update, insert, scan, rmw);
    WireIsPositive(read, update, insert, scan, rmw);
    assert all[Place(op)] == (op, Proportion(op, read, update, insert, scan, rmw));
    ShareGrows(all, Place(op));
    i := |Positive(all[..Place(op)])|;
    OperationOwns(all, Place(op), u);
  }

  lemma {:induction false} ShareGrows(all: seq<(Op, real)>, j: nat)
    requires j < |all|
    ensures Share(all) >= all[j].1
  {
    var n := |all| - 1;
    if j == n {
    } else {
      ShareGrows(all[..n], j);
    }
  }

  /** With some positive proportion every draw picks an operation, and only one of positive proportion. */
  lemma OperationChosen(read: real, update: real, insert: real, scan: real, rmw: real, u: real)
    requires read > 0.0 || update > 0.0 || insert > 0.0 || scan > 0.0 || rmw > 0.0
    requires 0.0 <= u < 1.0
    ensures var values := Wire(read, update, insert, scan, rmw);
            var w := Weights(values);
            && Total(w) > 0.0
            && Pick(w, Total(w), u).Some?
            && Pick(w, Total(w), u).value < |values|
            && Proportion(values[Pick(w, Total(w), u).value].0, read, update, insert, scan, rmw) > 0.0
  {
    var values := Wire(read, update, insert, scan, rmw);
    var w := Weights(values);
    forall i | 0 <= i < |values|
      ensures w[i] > 0.0
    {
      WireSpec(read, update, insert, scan, rmw, i);
    }
    PositiveTotal(w);
    PickExactly(w, u);
    var i := Pick(w, Total(w), u).value;
    assert InSlice(w, Total(w), u, i);
    WireSpec(read, update, insert, scan, rmw, i);
  }

  /** Every draw picks an operation if and only if some proportion is positive. */
  lemma EveryDrawPicksIff(read: real, update: real, insert: real, scan: real, rmw: real)
    ensures var w := Weights(Wire(read, update, insert, scan, rmw));
            (forall u: real :: 0.0 <= u < 1.0 ==> Choose(w, Total(w), Some(u)).Some?) <==>
            read > 0.0 || update > 0.0 || insert > 0.0 || scan > 0.0 || rmw > 0.0
  {
    var w := Weights(Wire(read, update, insert, scan, rmw));
    if read > 0.0 || update > 0.0 || insert > 0.0 || scan > 0.0 || rmw > 0.0 {
      forall u: real | 0.0 <= u < 1.0
        ensures Choose(w, Total(w), Some(u)).Some?
      {
        OperationChosen(read, update, insert, scan, rmw, u);
        ChooseIsPick(w, Total(w), u);
      }
    } else {
      assert Wire(read, update, insert, scan, rmw) == [];
      assert Choose(w, Total(w), Some(0.0)) == None;
    }
  }

  // ---------------------------------------------------------------- the workload object

  /** The parsed properties `Init` reads. */
  datatype Properties = Properties(
    ordered: bool, padding: int, insertStart: uint64, recordCount: uint64,
    read: real, update: real, insert: real, scan: real, rmw: real)

  /** The part of `CoreWorkload` that produces keys and operations, as `Init` wires it. */
  class CoreWorkload {
    const ordered: bool
    const padding: int
    const keyGenerator: CounterGenerator
    const insertKeySequence: CounterGenerator
    const opChooser: DiscreteGenerator<Op>

    ghost predicate Valid()
      reads this, opChooser
    {
      opChooser.Valid() && keyGenerator != insertKeySequence
    }

    constructor (p: Properties)
      ensures Valid() && ordered == p.ordered && padding == p.padding
      ensures fresh(keyGenerator) && fresh(insertKeySequence) && fresh(opChooser)
      ensures keyGenerator.counter == p.insertStart && insertKeySequence.counter == p.recordCount
      ensures opChooser.values == Wire(p.read, p.update, p.insert, p.scan, p.rmw)
    {
      ordered, padding := p.ordered, p.padding;
      keyGenerator := new CounterGenerator(p.insertStart);
      var sequence := new CounterGenerator(3);
      insertKeySequence := sequence;
      var chooser := WireOperations(p.read, p.update, p.insert, p.scan, p.rmw);
      opChooser := chooser;
      new;
      sequence.Set(p.recordCount);
    }

    /** The name of the next number of the counter; the sequence behind `Last()` is left alone. */
    method NextSequenceKey() returns (name: string)
      requires keyGenerator != insertKeySequence
      modifies keyGenerator
      ensures name == BuildKeyName(ordered, padding, old(keyGenerator.counter))
      ensures keyGenerator.counter == (old(keyGenerator.counter) + 1) % TWO64
      ensures insertKeySequence.counter == old(insertKeySequence.counter)
    {
      var keyNum := keyGenerator.Next();
      name := BuildKeyName(ordered, padding, keyNum);
    }

    /** The operation owning the draw; None is the trailing assertion of the weighted choice. */
    method NextOperation(u: real) returns (op: Option<Op>)
      requires Valid()
      modifies opChooser`last
      ensures Valid()
      ensures match Choose(Weights(opChooser.values), opChooser.sum, Some(u))
              case None => op == None
              case Some(i) => op == Some(opChooser.values[i].0)
    {
      op := opChooser.Next(u);
    }

    /**
     The rejection loop over the successive values of the key chooser: the name of the first one not
     beyond `Last()`, and how many were drawn; None if the draws given run out first.
     */
    method NextTransactionKey(draws: seq<uint64>) returns (name: Option<string>, used: nat)
      ensures match FirstAccepted(draws, insertKeySequence.Last())
              case Some(i) => used == i + 1 && name == Some(BuildKeyName(ordered, padding, draws[i]))
              case None => used == |draws| && name == None
    {
      used := 0;
      var last := insertKeySequence.Last();
      assert draws[0..] == draws;
      while used < |draws|
        invariant 0 <= used <= |draws|
        invariant FirstAccepted(draws, last) ==
                  match FirstAccepted(draws[used..], last)
                  case Some(i) => Some(i + used)
                  case None => None
      {
        assert draws[used..][0] == draws[used] && draws[used..][1..] == draws[used + 1..];
        var keyNum := draws[used];
        used := used + 1;
        if keyNum <= last {
          return Some(BuildKeyName(ordered, padding, keyNum)), used;
        }
      }
      name := None;
    }

    /** The same loop over a chooser object, given its random draws. */
    method DrawTransactionKey(chooser: RequestChooser, us: seq<real>) returns (name: Option<string>, drawn: seq<uint64>)
      requires chooser.Valid() && forall i :: 0 <= i < |us| ==> 0.0 <= us[i] < 1.0
      modifies chooser.Parts()
      ensures chooser.Valid() && Drawable(chooser.kind, drawn) && DrawnBy(chooser.kind, us, drawn)
      ensures |drawn| <= |us| && (name.None? ==> |drawn| == |us|)
      ensures insertKeySequence.counter == old(insertKeySequence.counter)
      ensures match FirstAccepted(drawn, insertKeySequence.Last())
              case Some(i) => i == |drawn| - 1 && name == Some(BuildKeyName(ordered, padding, drawn[i]))
              case None => name == None
    {
      drawn := DrawUntil(chooser, insertKeySequence.Last(), us);
      if drawn != [] && drawn[|drawn| - 1] <= insertKeySequence.Last() {
        name := Some(BuildKeyName(ordered, padding, drawn[|drawn| - 1]));
      } else {
        name := None;
      }
    }
  }

  /** Keys the distribution can produce. */
  ghost predicate Drawable(k: KeyChooser, drawn: seq<uint64>)
  {
    (k.Uniform? || k.c.Valid()) && forall i :: 0 <= i < |drawn| ==> CanDraw(k, drawn[i])
  }

  /** Each key is the one drawn from its random number. */
  ghost predicate DrawnBy(k: KeyChooser, us: seq<real>, drawn: seq<uint64>)
  {
    && (k.Uniform? || k.c.Valid()) && |drawn| <= |us|
    && forall i :: 0 <= i < |drawn| ==> DrawnAt(k, us[i], drawn[i])
  }

  lemma DrawableStep(k: KeyChooser, us: seq<real>, drawn: seq<uint64>, key: uint64)
    requires Drawable(k, drawn) && DrawnBy(k, us, drawn) && |drawn| < |us|
    requires CanDraw(k, key) && DrawnAt(k, us[|drawn|], key)
    ensures Drawable(k, drawn + [key]) && DrawnBy(k, us, drawn + [key])
  {
  }

  /** Draws until a key is not beyond `last` or the draws run out: all but the last key were rejected. */
  method DrawUntil(chooser: RequestChooser, last: uint64, us: seq<real>) returns (drawn: seq<uint64>)
    requires chooser.Valid() && forall i :: 0 <= i < |us| ==> 0.0 <= us[i] < 1.0
    modifies chooser.Parts()
    ensures chooser.Valid() && Drawable(chooser.kind, drawn) && DrawnBy(chooser.kind, us, drawn)
    ensures forall i :: 0 <= i < |drawn| - 1 ==> drawn[i] > last
    ensures drawn != [] && drawn[|drawn| - 1] > last ==> |drawn| == |us|
    ensures drawn == [] ==> us == []
  {
    drawn := [];
    assert chooser.kind.Uniform? || chooser.kind.c.Valid();
    for n := 0 to |us|
      invariant chooser.Valid() && |drawn| == n && Drawable(chooser.kind, drawn) && DrawnBy(chooser.kind, us, drawn)
      invariant forall i :: 0 <= i < n ==> drawn[i] > last
    {
      var keyNum := chooser.Next(us[n]);
      DrawableStep(chooser.kind, us, drawn, keyNum);
      drawn := drawn + [keyNum];
      if keyNum <= last {
        return;
      }
    }
  }

  /** With a distribution wired for the record count and no room for new keys, one draw is enough. */
  lemma OneKeyDrawn(k: KeyChooser, recordCount: nat, drawn: seq<uint64>)
    requires WiredFor(k, recordCount, 0) && 1 <= recordCount < TWO64 && drawn != [] && Drawable(k, drawn)
    requires forall i :: 0 <= i < |drawn| - 1 ==> drawn[i] > recordCount - 1
    ensures |drawn| == 1 && drawn[0] <= recordCount - 1
  {
    OneDrawSuffices(k, recordCount, 0, drawn);
  }
}
