/**
 What a record store promises (`core/db.h`), as a nested map from key to field
 to value, with the status codes of `HashtableDB` (`db/hashtable_db.cc`).
 */
module Records {
  import opened Options
  import opened CStrings

  datatype Status = Ok | NoData | Conflict

  type Pair = (string, string)
  type Fields = map<string, string>
  type Store = map<string, Fields>

  lemma RemoveOneKey<K, V>(m: map<K, V>, k: K)
    requires k in m
    ensures |m - {k}| == |m| - 1
  {
    assert m.Keys == (m - {k}).Keys + {k};
    assert |(m - {k}).Keys| == |m.Keys| - 1;
  }

  function Name(p: Pair): (s: string)
  {
    CStr(p.0)
  }

  function Value(p: Pair): (s: string)
  {
    CStr(p.1)
  }

  /** No two pairs name the same field. */
  predicate Distinct(values: seq<Pair>)
  {
    forall i, j :: 0 <= i < j < |values| ==> Name(values[i]) != Name(values[j])
  }

  /** Writes every pair, later pairs over earlier ones. */
  function Overlay(r: Fields, values: seq<Pair>): (f: Fields)
    decreases |values|
  {
    if values == [] then r else Overlay(r[Name(values[0]) := Value(values[0])], values[1..])
  }

  /** Writes every pair whose field is still missing. */
  function Fill(r: Fields, values: seq<Pair>): (f: Fields)
    decreases |values|
  {
    if values == [] then r
    else Fill(if Name(values[0]) in r then r else r[Name(values[0]) := Value(values[0])], values[1..])
  }

  /** Writes pairs up to the first one whose field is already there. */
  function InsertFields(r: Fields, values: seq<Pair>): (f: (Fields, Status))
    decreases |values|
  {
    if values == [] then (r, Ok)
    else if Name(values[0]) in r then (r, Conflict)
    else InsertFields(r[Name(values[0]) := Value(values[0])], values[1..])
  }

  function Record(t: Store, key: string): (r: Fields)
  {
    if key in t then t[key] else map[]
  }

  function Insert(t: Store, key: string, values: seq<Pair>): (r: (Store, Status))
  {
    var (f, status) := InsertFields(Record(t, key), values);
    (t[key := f], status)
  }

  function Update(t: Store, key: string, values: seq<Pair>): (r: Store)
  {
    t[key := if key in t then Overlay(t[key], values) else Fill(map[], values)]
  }

  function Delete(t: Store, key: string): (r: (Store, Status))
  {
    if key in t then (t - {key}, Ok) else (t, NoData)
  }

  /** One requested field, if it exists. */
  function Found(r: Fields, f: string): (s: seq<Pair>)
  {
    if CStr(f) in r then [(f, r[CStr(f)])] else []
  }

  /** The requested fields that exist, in request order. */
  function Select(r: Fields, fields: seq<string>): (s: seq<Pair>)
  {
    if fields == [] then []
    else Found(r, fields[0]) + Select(r, fields[1..])
  }

  /** A listing of a whole record, in any order. */
  predicate Lists(s: seq<Pair>, r: Fields)
  {
    && |s| == |r|
    && (forall i :: 0 <= i < |s| ==> s[i].0 in r && r[s[i].0] == s[i].1)
    && (forall i, j :: 0 <= i < j < |s| ==> s[i].0 != s[j].0)
  }

  /** What a read of a record returns: a listing of all fields, or the requested ones. */
  ghost predicate Answers(s: seq<Pair>, r: Fields, fields: Option<seq<string>>)
  {
    if fields.None? then Lists(s, r) else s == Select(r, fields.value)
  }

  /** An order in which a table iterates: every key, once. */
  ghost predicate Enumerates(iter: seq<string>, keys: set<string>)
  {
    && (forall k :: k in iter <==> k in keys)
    && (forall i, j :: 0 <= i < j < |iter| ==> iter[i] != iter[j])
  }

  /** The stretch of the iteration order that starts at `k`, as long as the limit and the table allow. */
  ghost predicate ScanOrder(order: seq<string>, iter: seq<string>, k: string, limit: nat)
  {
    if k !in iter then order == []
    else exists p :: 0 <= p < |iter| && Stretch(order, iter, p, k, limit)
  }

  predicate Stretch(order: seq<string>, iter: seq<string>, p: nat, k: string, limit: nat)
    requires p < |iter|
  {
    iter[p] == k && order == iter[p..if p + limit < |iter| then p + limit else |iter|]
  }

  /** One answer per scanned record, in scan order. */
  ghost predicate ScanAnswers(result: seq<seq<Pair>>, t: Store, order: seq<string>, fields: Option<seq<string>>)
  {
    && |result| == |order|
    && forall j :: 0 <= j < |order| ==> order[j] in t && Answers(result[j], t[order[j]], fields)
  }

  lemma ScanAnswersStep(result: seq<seq<Pair>>, t: Store, order: seq<string>, i: nat, fields: Option<seq<string>>,
                        values: seq<Pair>)
    requires i < |order| && ScanAnswers(result, t, order[..i], fields)
    requires order[i] in t && Answers(values, t[order[i]], fields)
    ensures ScanAnswers(result + [values], t, order[..i + 1], fields)
  {
    var longer := result + [values];
    forall j | 0 <= j < i + 1
      ensures order[..i + 1][j] in t && Answers(longer[j], t[order[..i + 1][j]], fields)
    {
      if j < i { assert order[..i][j] == order[..i + 1][j] && longer[j] == result[j]; }
    }
  }

  // ---------------------------------------------------------------- what the operations mean

  /** The value of the last pair that names field `f`. */
  function LastWrite(values: seq<Pair>, f: string): (v: Option<string>)
    ensures v.Some? <==> exists i :: 0 <= i < |values| && Name(values[i]) == f
  {
    if values == [] then None
    else
      assert forall i :: 0 < i < |values| ==> values[i] == values[1..][i - 1];
      match LastWrite(values[1..], f)
      case Some(v) => Some(v)
      case None => if Name(values[0]) == f then Some(Value(values[0])) else None
  }

  /** After an overlay a field holds the last value written to it, or else what it held before. */
  lemma {:induction false} OverlayLookup(r: Fields, values: seq<Pair>, f: string)
    ensures f in Overlay(r, values) <==> f in r || LastWrite(values, f).Some?
    ensures match LastWrite(values, f)
            case Some(v) => f in Overlay(r, values) && Overlay(r, values)[f] == v
            case None => f in r ==> Overlay(r, values)[f] == r[f]
    decreases |values|
  {
    if values == [] {
    } else {
      OverlayLookup(r[Name(values[0]) := Value(values[0])], values[1..], f);
    }
  }

  /** The value of the first pair that names field `f`. */
  function FirstWrite(values: seq<Pair>, f: string): (v: Option<string>)
    ensures v.Some? <==> LastWrite(values, f).Some?
  {
    if values == [] then None
    else if Name(values[0]) == f then Some(Value(values[0]))
    else FirstWrite(values[1..], f)
  }

  /** After filling, a field holds what it held before, or else the first value written to it. */
  lemma {:induction false} FillLookup(r: Fields, values: seq<Pair>, f: string)
    ensures f in Fill(r, values) <==> f in r || FirstWrite(values, f).Some?
    ensures f in Fill(r, values) ==> Fill(r, values)[f] == if f in r then r[f] else FirstWrite(values, f).value
    decreases |values|
  {
    if values == [] {
    } else {
      FillLookup(if Name(values[0]) in r then r else r[Name(values[0]) := Value(values[0])], values[1..], f);
    }
  }

  lemma ConcatAssociative(x: seq<Pair>, y: seq<Pair>, z: seq<Pair>)
    ensures x + (y + z) == (x + y) + z
  {
  }

  /** One step of a loop that collects the requested fields. */
  lemma SelectNext(r: Fields, fields: seq<string>, i: nat, done: seq<Pair>)
    requires i < |fields|
    ensures done + Select(r, fields[i..]) == (done + Found(r, fields[i])) + Select(r, fields[i + 1..])
  {
    assert fields[i..][0] == fields[i] && fields[i..][1..] == fields[i + 1..];
    ConcatAssociative(done, Found(r, fields[i]), Select(r, fields[i + 1..]));
  }

  /** Selecting keeps request order ... */
  lemma {:induction false} SelectConcat(r: Fields, a: seq<string>, b: seq<string>)
    ensures Select(r, a + b) == Select(r, a) + Select(r, b)
    decreases |a|
  {
    if a == [] {
      assert a + b == b;
    } else {
      SelectConcat(r, a[1..], b);
      assert (a + b)[1..] == a[1..] + b;
      ConcatAssociative(Found(r, a[0]), Select(r, a[1..]), Select(r, b));
    }
  }

  /** ... and returns exactly the requested fields that exist, with their values. */
  lemma {:induction false} SelectMember(r: Fields, fields: seq<string>, p: Pair)
    ensures p in Select(r, fields) <==> p.0 in fields && CStr(p.0) in r && r[CStr(p.0)] == p.1
    decreases |fields|
  {
    if fields == [] {
    } else {
      SelectMember(r, fields[1..], p);
      assert p.0 in fields <==> p.0 == fields[0] || p.0 in fields[1..];
    }
  }

  /** A single field is returned once if it exists. */
  lemma SelectOne(r: Fields, f: string)
    ensures Select(r, [f]) == if CStr(f) in r then [(f, r[CStr(f)])] else []
  {
    var one := [f];
    assert one[1..] == [];
  }

  /** Deleting removes exactly the one record, and fails only if there is none. */
  lemma DeleteSpec(t: Store, key: string)
    ensures var (t', status) := Delete(t, key);
            && key !in t' && (forall k :: k != key ==> (k in t' <==> k in t) && (k in t ==> t'[k] == t[k]))
            && (status == Ok <==> key in t) && (status == NoData <==> key !in t)
  {
  }

  predicate Fresh(r: Fields, values: seq<Pair>)
  {
    forall i :: 0 <= i < |values| ==> Name(values[i]) !in r
  }

  /** With distinct new names, filling, overlaying and inserting all do the same. */
  lemma {:induction false} FreshFields(r: Fields, values: seq<Pair>)
    requires Distinct(values) && Fresh(r, values)
    ensures Fill(r, values) == Overlay(r, values)
    ensures InsertFields(r, values) == (Overlay(r, values), Ok)
    decreases |values|
  {
    if values == [] {
    } else {
      var rest := values[1..];
      assert Distinct(rest) by {
        assert forall i :: 0 <= i < |rest| ==> rest[i] == values[i + 1];
      }
      FreshFields(r[Name(values[0]) := Value(values[0])], rest);
    }
  }

  /** The first pair that conflicts with the record or with an earlier pair. */
  function FirstConflict(r: Fields, values: seq<Pair>): (n: nat)
    ensures n <= |values|
    decreases |values|
  {
    if values == [] || Name(values[0]) in r then 0
    else 1 + FirstConflict(r[Name(values[0]) := Value(values[0])], values[1..])
  }

  /** The pairs before the first conflict have distinct new names, and the one at it conflicts. */
  lemma FirstConflictSpec(r: Fields, values: seq<Pair>)
    ensures var n := FirstConflict(r, values);
            && Distinct(values[..n]) && Fresh(r, values[..n])
            && (n < |values| ==> Name(values[n]) in r || exists i :: 0 <= i < n && Name(values[i]) == Name(values[n]))
  {
    NoConflictBefore(r, values);
    ConflictAt(r, values);
  }

  lemma {:induction false} NoConflictBefore(r: Fields, values: seq<Pair>)
    ensures Distinct(values[..FirstConflict(r, values)]) && Fresh(r, values[..FirstConflict(r, values)])
    decreases |values|
  {
    if values == [] || Name(values[0]) in r {
    } else {
      var rest, r' := values[1..], r[Name(values[0]) := Value(values[0])];
      NoConflictBefore(r', rest);
      var m := FirstConflict(r', rest);
      PrependFresh(r, values[0], rest[..m]);
      assert values[..m + 1] == [values[0]] + rest[..m];
    }
  }

  lemma {:induction false} ConflictAt(r: Fields, values: seq<Pair>)
    ensures var n := FirstConflict(r, values);
            n < |values| ==> Name(values[n]) in r || exists i :: 0 <= i < n && Name(values[i]) == Name(values[n])
    decreases |values|
  {
    if values == [] || Name(values[0]) in r {
    } else {
      var rest, r' := values[1..], r[Name(values[0]) := Value(values[0])];
      ConflictAt(r', rest);
      var m := FirstConflict(r', rest);
      if m < |rest| && Name(rest[m]) !in r' {
        var i :| 0 <= i < m && Name(rest[i]) == Name(rest[m]);
        assert values[i + 1] == rest[i];
      }
    }
  }

  lemma PrependFresh(r: Fields, pair: Pair, rest: seq<Pair>)
    requires Name(pair) !in r && Distinct(rest) && Fresh(r[Name(pair) := Value(pair)], rest)
    ensures Distinct([pair] + rest) && Fresh(r, [pair] + rest)
  {
    var all := [pair] + rest;
    forall i | 0 <= i < |all|
      ensures Name(all[i]) !in r && (i > 0 ==> Name(all[i]) != Name(pair))
    {
      if i > 0 { assert all[i] == rest[i - 1]; }
    }
  }

  /**
   Insert keeps the longest prefix that conflicts neither with the record nor with itself, and
   reports a conflict exactly when that is not everything.
   */
  lemma {:induction false} InsertKeepsPrefix(r: Fields, values: seq<Pair>)
    ensures var n := FirstConflict(r, values);
            InsertFields(r, values) == (Overlay(r, values[..n]), if n < |values| then Conflict else Ok)
    decreases |values|
  {
    if values == [] || Name(values[0]) in r {
    } else {
      var r' := r[Name(values[0]) := Value(values[0])];
      InsertKeepsPrefix(r', values[1..]);
      var n := FirstConflict(r, values);
      assert values[..n][1..] == values[1..][..n - 1];
    }
  }

  /** Insert succeeds exactly on distinct names new to the record. */
  lemma InsertOkIff(r: Fields, values: seq<Pair>)
    ensures InsertFields(r, values).1.Ok? <==> Distinct(values) && Fresh(r, values)
  {
    InsertKeepsPrefix(r, values);
    FirstConflictSpec(r, values);
    var n := FirstConflict(r, values);
    assert values[..|values|] == values;
    if Distinct(values) && Fresh(r, values) { FreshFields(r, values); }
  }

  /** On distinct names, `Update` overlays the pairs on the record whether or not it existed. */
  lemma UpdateOverlays(t: Store, key: string, values: seq<Pair>)
    requires key in t || Distinct(values)
    ensures Update(t, key, values) == t[key := Overlay(Record(t, key), values)]
  {
    if key !in t { FreshFields(map[], values); }
  }

  /** Without them a new record keeps the first value of a repeated field, an existing one the last. */
  lemma RepeatedFieldDisagrees()
    ensures var values := [("f", "a"), ("f", "b")];
            && Update(map[], "k", values)["k"] == map["f" := "a"]
            && Update(map["k" := map[]], "k", values)["k"] == map["f" := "b"]
  {
    var values: seq<Pair> := [("f", "a"), ("f", "b")];
    CStrPlain("f");
    CStrPlain("a");
    CStrPlain("b");
    assert values[1..] == [("f", "b")] && values[1..][1..] == [];
    var e: Fields := map[];
    assert Fill(e, values) == Fill(e["f" := "a"], values[1..]) == e["f" := "a"];
    assert Overlay(e, values) == Overlay(e["f" := "a"], values[1..]) == e["f" := "a"]["f" := "b"];
  }

  lemma CStrPlain(s: string)
    requires NUL !in s
    ensures CStr(s) == s
  {
  }

  /** The index under which a record of a table is kept. */
  function KeyIndex(table: string, key: string): (k: string)
  {
    CStr(table + key)
  }

  /** Within one table, NUL-free keys get distinct indices; across tables they need not. */
  lemma KeyIndexInjective(table: string, x: string, y: string)
    requires NUL !in table && NUL !in x && NUL !in y
    ensures KeyIndex(table, x) == KeyIndex(table, y) <==> x == y
    ensures KeyIndex("ab", "c") == KeyIndex("a", "bc")
  {
    CStrPlain(table + x);
    CStrPlain(table + y);
    if table + x == table + y {
      assert (table + x)[|table|..] == x && (table + y)[|table|..] == y;
    }
    assert "ab" + "c" == "a" + "bc";
  }
}
