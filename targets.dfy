/** TargetService of src/lib/target-service.ts: the customers ("targets")
    of a project, stored as children of the project partition under
    `PROJECT#p` / `TARGET#t`. Updates write only a fixed whitelist of
    fields, each through index-numbered placeholders, and always restamp
    `updatedAt`. The clock and the id generator are parameters. */
module Targets {
  import opened Js
  import opened Keys
  import opened Store
  import opened Database

  function TargetKey(projectId: string, targetId: string): Key
  {
    Key(ProjectPk(projectId), TargetSk(targetId))
  }

  /** The fields `update` may write, in the order it visits them. */
  const UpdatableFields: seq<string> := ["name", "displayName", "email", "order", "archived", "metadata"]

  /** The decimal digit of a whitelist index. */
  function Digit(i: nat): char
    requires i < 10
  {
    ('0' as int + i) as char
  }

  /** `#attr{i} = :val{i}` for the `i`-th whitelisted field. */
  function AttrClause(i: nat): SetClause
    requires i < 10
  {
    SetClause("#attr" + [Digit(i)], ":val" + [Digit(i)])
  }

  const StampClause := SetClause("#updatedAt", ":updatedAt")

  /** `updates[field] !== undefined` for the `i`-th whitelisted field. */
  predicate Supplied(updates: Record, i: nat)
    requires i < |UpdatableFields|
  {
    Get(updates, UpdatableFields[i]) != Undefined
  }

  // The state of the `forEach` after visiting the first `n` fields.

  function TargetClauses(updates: Record, n: nat): seq<SetClause>
    requires n <= |UpdatableFields|
  {
    if n == 0 then []
    else TargetClauses(updates, n - 1) + (if Supplied(updates, n - 1) then [AttrClause(n - 1)] else [])
  }

  function TargetNames(updates: Record, n: nat): map<string, string>
    requires n <= |UpdatableFields|
  {
    if n == 0 then map["#updatedAt" := "updatedAt"]
    else if Supplied(updates, n - 1) then TargetNames(updates, n - 1)[AttrClause(n - 1).namePh := UpdatableFields[n - 1]]
    else TargetNames(updates, n - 1)
  }

  function TargetValues(updates: Record, now: string, n: nat): map<string, Value>
    requires n <= |UpdatableFields|
  {
    if n == 0 then map[":updatedAt" := Str(now)]
    else if Supplied(updates, n - 1) then TargetValues(updates, now, n - 1)[AttrClause(n - 1).valuePh := Get(updates, UpdatableFields[n - 1])]
    else TargetValues(updates, now, n - 1)
  }

  /** The attributes the update writes, in clause order. */
  function TargetEntries(updates: Record, now: string, n: nat): seq<Entry>
    requires n <= |UpdatableFields|
  {
    if n == 0 then [("updatedAt", Str(now))]
    else
      var e := (UpdatableFields[n - 1], Get(updates, UpdatableFields[n - 1]));
      TargetEntries(updates, now, n - 1) + (if Supplied(updates, n - 1) then [e] else [])
  }

  /** The request `update` sends for a key. */
  function TargetRequest(key: Key, updates: Record, now: string): UpdateRequest
  {
    UpdateRequest(key, [StampClause] + TargetClauses(updates, 6), TargetNames(updates, 6), TargetValues(updates, now, 6))
  }

  /** The fields the update writes: `updatedAt` and every whitelisted field
      the caller supplied. */
  function Whitelisted(updates: Record, now: string): Record
  {
    EntriesMap(TargetEntries(updates, now, 6))
  }

  /** No supplied whitelisted value holds `undefined` inside it. */
  predicate SuppliedDefined(updates: Record)
  {
    forall i | 0 <= i < |UpdatableFields| :: Supplied(updates, i) ==> Defined(Get(updates, UpdatableFields[i]))
  }

  /** `${updateExpression}, ${updateExpressions.join(', ')}` when there
      are field clauses, else just the stamp clause, is the expression of
      the whole clause list. */
  lemma {:induction false} TargetExpressionText(expressions: seq<SetClause>)
    ensures "SET " + ClausesText([StampClause] + expressions) ==
      if |expressions| > 0 then "SET #updatedAt = :updatedAt" + ", " + ClausesText(expressions)
      else "SET #updatedAt = :updatedAt"
  {
    var cs := [StampClause] + expressions;
    var stamp := ClauseText(StampClause);
    StampClauseText();
    if |expressions| > 0 {
      assert cs[0] == StampClause && cs[1..] == expressions;
      assert ClausesText(cs) == stamp + ", " + ClausesText(expressions);
      assert "SET " + (stamp + ", " + ClausesText(expressions)) == "SET " + stamp + ", " + ClausesText(expressions);
    } else {
      assert cs == [StampClause];
    }
  }

  lemma StampClauseText()
    ensures ClauseText(StampClause) == "#updatedAt = :updatedAt"
    ensures "SET " + ClauseText(StampClause) == "SET #updatedAt = :updatedAt"
  {
  }

  /** Builds the `SET` expression and the two placeholder maps: the
      `#updatedAt` clause first, then one clause per supplied whitelisted
      field, numbered by its whitelist index. */
  method BuildTargetUpdate(updates: Record, now: string)
    returns (expression: string, clauses: seq<SetClause>, names: map<string, string>, values: map<string, Value>)
    ensures clauses == [StampClause] + TargetClauses(updates, 6)
    ensures names == TargetNames(updates, 6) && values == TargetValues(updates, now, 6)
    ensures expression == UpdateExpression(UpdateRequest(Key("", ""), clauses, names, values))
  {
    var stampExpression := "SET #updatedAt = :updatedAt";
    names := map["#updatedAt" := "updatedAt"];
    values := map[":updatedAt" := Str(now)];
    var expressions: seq<SetClause> := [];
    for i := 0 to |UpdatableFields|
      invariant expressions == TargetClauses(updates, i)
      invariant names == TargetNames(updates, i)
      invariant values == TargetValues(updates, now, i)
    {
      if Get(updates, UpdatableFields[i]) != Undefined {
        var c := AttrClause(i);
        expressions := expressions + [c];
        names := names[c.namePh := UpdatableFields[i]];
        values := values[c.valuePh := Get(updates, UpdatableFields[i])];
      }
    }
    TargetExpressionText(expressions);
    clauses := [StampClause] + expressions;
    if |expressions| > 0 {
      expression := stampExpression + ", " + ClausesText(expressions);
    } else {
      expression := stampExpression;
    }
  }

  /** The placeholder names of whitelist indices differ from each other
      and from `#updatedAt`, and likewise the value placeholders. */
  lemma {:induction false} AttrClauseFresh(i: nat, j: nat)
    requires i < 10 && j < 10
    ensures AttrClause(i).namePh != StampClause.namePh && AttrClause(i).valuePh != StampClause.valuePh
    ensures i != j ==> AttrClause(i).namePh != AttrClause(j).namePh && AttrClause(i).valuePh != AttrClause(j).valuePh
  {
    assert AttrClause(i).namePh[1] == 'a' && StampClause.namePh[1] == 'u';
    assert AttrClause(i).valuePh[1] == 'v' && StampClause.valuePh[1] == 'u';
    assert AttrClause(i).namePh[5] == Digit(i) && AttrClause(j).namePh[5] == Digit(j);
    assert AttrClause(i).valuePh[4] == Digit(i) && AttrClause(j).valuePh[4] == Digit(j);
  }

  /** The whitelisted fields are pairwise different, and none is a key
      attribute, a stamp, `id` or `projectId`. */
  lemma {:induction false} FieldsDistinct()
    ensures forall i, j | 0 <= i < j < |UpdatableFields| :: UpdatableFields[i] != UpdatableFields[j]
    ensures forall i | 0 <= i < |UpdatableFields| ::
      UpdatableFields[i] != "updatedAt" && UpdatableFields[i] != "PK" && UpdatableFields[i] != "SK"
      && UpdatableFields[i] != "id" && UpdatableFields[i] != "projectId" && UpdatableFields[i] != "createdAt"
  {
    assert |UpdatableFields[0]| == 4 && |UpdatableFields[1]| == 11 && |UpdatableFields[2]| == 5;
    assert |UpdatableFields[3]| == 5 && |UpdatableFields[4]| == 8 && |UpdatableFields[5]| == 8;
    assert UpdatableFields[2][0] == 'e' && UpdatableFields[3][0] == 'o';
    assert UpdatableFields[4][0] == 'a' && UpdatableFields[5][0] == 'm';
    assert |"updatedAt"| == 9 && |"PK"| == 2 && |"SK"| == 2;
    assert |"id"| == 2 && |"projectId"| == 9 && |"createdAt"| == 9;
  }

  /** After `n` fields every bound placeholder is `#updatedAt`/`:updatedAt`
      or the placeholder of an index below `n`. */
  lemma {:induction false} TargetPlaceholders(updates: Record, now: string, n: nat)
    requires n <= |UpdatableFields|
    ensures forall p | p in TargetNames(updates, n) :: p == StampClause.namePh || exists j | 0 <= j < n :: p == AttrClause(j).namePh
    ensures forall p | p in TargetValues(updates, now, n) :: p == StampClause.valuePh || exists j | 0 <= j < n :: p == AttrClause(j).valuePh
  {
    if n > 0 {
      TargetPlaceholders(updates, now, n - 1);
    }
  }

  /** The placeholders of index `m` are not yet bound after `m` fields. */
  lemma {:induction false} TargetFresh(updates: Record, now: string, m: nat)
    requires m < |UpdatableFields|
    ensures AttrClause(m).namePh !in TargetNames(updates, m)
    ensures AttrClause(m).valuePh !in TargetValues(updates, now, m)
  {
    TargetPlaceholders(updates, now, m);
    AttrClauseFresh(m, m);
    forall p | p in TargetNames(updates, m) ensures p != AttrClause(m).namePh {
      if p != StampClause.namePh {
        var j :| 0 <= j < m && p == AttrClause(j).namePh;
        AttrClauseFresh(j, m);
      }
    }
    forall p | p in TargetValues(updates, now, m) ensures p != AttrClause(m).valuePh {
      if p != StampClause.valuePh {
        var j :| 0 <= j < m && p == AttrClause(j).valuePh;
        AttrClauseFresh(j, m);
      }
    }
  }

  /** After `n` fields the clauses, behind the stamp clause, line up with
      the entries. */
  lemma {:induction false} TargetLined(updates: Record, now: string, n: nat)
    requires n <= |UpdatableFields|
    ensures Lined([StampClause] + TargetClauses(updates, n), TargetNames(updates, n), TargetValues(updates, now, n),
      TargetEntries(updates, now, n))
  {
    if n == 0 {
      TargetLinedZero(updates, now);
    } else {
      TargetLined(updates, now, n - 1);
      TargetLinedStep(updates, now, n);
    }
  }

  /** The stamp clause alone lines up with the `updatedAt` entry. */
  lemma TargetLinedZero(updates: Record, now: string)
    ensures Lined([StampClause] + TargetClauses(updates, 0), TargetNames(updates, 0), TargetValues(updates, now, 0),
      TargetEntries(updates, now, 0))
  {
    var cs := [StampClause] + TargetClauses(updates, 0);
    assert cs == [StampClause];
    assert NamePhs(cs) == {"#updatedAt"} by {
      assert cs[0].namePh == "#updatedAt";
    }
    assert ValuePhs(cs) == {":updatedAt"} by {
      assert cs[0].valuePh == ":updatedAt";
    }
  }

  /** Visiting the `n`-th field keeps clauses and entries lined up. */
  lemma {:induction false} TargetLinedStep(updates: Record, now: string, n: nat)
    requires 0 < n <= |UpdatableFields|
    requires Lined([StampClause] + TargetClauses(updates, n - 1), TargetNames(updates, n - 1), TargetValues(updates, now, n - 1),
      TargetEntries(updates, now, n - 1))
    ensures Lined([StampClause] + TargetClauses(updates, n), TargetNames(updates, n), TargetValues(updates, now, n),
      TargetEntries(updates, now, n))
  {
    var m := n - 1;
    if Supplied(updates, m) {
      TargetFresh(updates, now, m);
      var e := (UpdatableFields[m], Get(updates, UpdatableFields[m]));
      LinedSnoc([StampClause] + TargetClauses(updates, m), TargetNames(updates, m), TargetValues(updates, now, m),
        TargetEntries(updates, now, m), AttrClause(m), e);
      assert [StampClause] + TargetClauses(updates, n) == [StampClause] + TargetClauses(updates, m) + [AttrClause(m)];
    } else {
      assert TargetClauses(updates, n) == TargetClauses(updates, m);
      assert TargetEntries(updates, now, n) == TargetEntries(updates, now, m);
    }
  }

  /** The entry the update writes for the `j`-th whitelisted field. */
  function FieldEntry(updates: Record, j: nat): Entry
    requires j < |UpdatableFields|
  {
    (UpdatableFields[j], Get(updates, UpdatableFields[j]))
  }

  /** The whitelist indices visited so far whose field was supplied, in
      visiting order. */
  function Picked(updates: Record, n: nat): (r: seq<nat>)
    requires n <= |UpdatableFields|
    ensures |r| <= n
    ensures forall k | 0 <= k < |r| :: r[k] < n
  {
    if n == 0 then [] else Picked(updates, n - 1) + (if Supplied(updates, n - 1) then [n - 1] else [])
  }

  /** The picked indices are exactly the supplied ones below `n`, in
      increasing order. */
  lemma {:induction false} PickedAt(updates: Record, n: nat)
    requires n <= |UpdatableFields|
    ensures forall k | 0 <= k < |Picked(updates, n)| :: Picked(updates, n)[k] < n && Supplied(updates, Picked(updates, n)[k])
    ensures forall k, l | 0 <= k < l < |Picked(updates, n)| :: Picked(updates, n)[k] < Picked(updates, n)[l]
    ensures forall j | 0 <= j < n && Supplied(updates, j) :: j in Picked(updates, n)
  {
    PickedSupplied(updates, n);
    PickedIncreasing(updates, n);
    PickedComplete(updates, n);
  }

  lemma {:induction false} PickedSupplied(updates: Record, n: nat)
    requires n <= |UpdatableFields|
    ensures forall k | 0 <= k < |Picked(updates, n)| :: Supplied(updates, Picked(updates, n)[k])
  {
    if n > 0 {
      PickedSupplied(updates, n - 1);
      var prev := Picked(updates, n - 1);
      assert forall k | 0 <= k < |prev| :: Picked(updates, n)[k] == prev[k];
    }
  }

  lemma {:induction false} PickedIncreasing(updates: Record, n: nat)
    requires n <= |UpdatableFields|
    ensures forall k, l | 0 <= k < l < |Picked(updates, n)| :: Picked(updates, n)[k] < Picked(updates, n)[l]
  {
    if n > 0 {
      PickedIncreasing(updates, n - 1);
      var prev, cur := Picked(updates, n - 1), Picked(updates, n);
      forall k, l | 0 <= k < l < |cur| ensures cur[k] < cur[l] {
        assert cur[k] == prev[k];
        if l < |prev| {
          assert cur[l] == prev[l];
        }
      }
    }
  }

  lemma {:induction false} PickedComplete(updates: Record, n: nat)
    requires n <= |UpdatableFields|
    ensures forall j | 0 <= j < n && Supplied(updates, j) :: j in Picked(updates, n)
  {
    if n > 0 {
      PickedComplete(updates, n - 1);
      var prev, cur := Picked(updates, n - 1), Picked(updates, n);
      forall j | 0 <= j < n && Supplied(updates, j) ensures j in cur {
        if j < n - 1 {
          var k :| 0 <= k < |prev| && prev[k] == j;
          assert cur[k] == j;
        } else {
          assert cur[|cur| - 1] == n - 1;
        }
      }
    }
  }

  /** The entries are the stamp followed by the picked fields' entries. */
  lemma {:induction false} EntriesPicked(updates: Record, now: string, n: nat)
    requires n <= |UpdatableFields|
    ensures |TargetEntries(updates, now, n)| == 1 + |Picked(updates, n)|
    ensures TargetEntries(updates, now, n)[0] == ("updatedAt", Str(now))
    ensures forall k | 1 <= k < |TargetEntries(updates, now, n)| ::
      TargetEntries(updates, now, n)[k] == FieldEntry(updates, Picked(updates, n)[k - 1])
  {
    if n > 0 {
      EntriesPicked(updates, now, n - 1);
      var prev := TargetEntries(updates, now, n - 1);
      var cur := TargetEntries(updates, now, n);
      assert forall k | 0 <= k < |prev| :: cur[k] == prev[k];
      assert forall k | 0 <= k < |Picked(updates, n - 1)| :: Picked(updates, n)[k] == Picked(updates, n - 1)[k];
    }
  }

  /** The entries name pairwise different attributes, none of them a key
      attribute. */
  lemma {:induction false} TargetDistinct(updates: Record, now: string)
    ensures DistinctNames(TargetEntries(updates, now, 6))
    ensures forall i | 0 <= i < |TargetEntries(updates, now, 6)| :: TargetEntries(updates, now, 6)[i].0 !in KeyAttrs
  {
    var es := TargetEntries(updates, now, 6);
    var ps := Picked(updates, 6);
    EntriesPicked(updates, now, 6);
    PickedAt(updates, 6);
    FieldsDistinct();
    forall i, j | 0 <= i < j < |es| ensures es[i].0 != es[j].0 {
      assert es[j].0 == UpdatableFields[ps[j - 1]];
      if i > 0 {
        assert es[i].0 == UpdatableFields[ps[i - 1]];
        assert ps[i - 1] < ps[j - 1];
      }
    }
    forall i | 0 < i < |es| ensures es[i].0 !in KeyAttrs {
      assert es[i].0 == UpdatableFields[ps[i - 1]];
    }
  }

  /** DynamoDB accepts the target update exactly when no supplied
      whitelisted value holds `undefined`, and then overlays the whitelisted
      fields on the row. */
  lemma {:induction false} TargetUpdateOutcome(rows: map<Key, Item>, key: Key, updates: Record, now: string)
    requires ValidKey(key)
    ensures Update(rows, TargetRequest(key, updates, now)).Ok? <==> SuppliedDefined(updates)
    ensures Update(rows, TargetRequest(key, updates, now)).Ok? ==>
      Update(rows, TargetRequest(key, updates, now)).value == Base(rows, key) + Whitelisted(updates, now)
  {
    var u := TargetRequest(key, updates, now);
    var es := TargetEntries(updates, now, 6);
    TargetLined(updates, now, 6);
    TargetDistinct(updates, now);
    LinedUpdate(rows, u, es);
    TargetEntriesDefined(updates, now);
  }

  /** The entries hold no `undefined` exactly when the supplied whitelisted
      values hold none. */
  lemma {:induction false} TargetEntriesDefined(updates: Record, now: string)
    ensures EntriesDefined(TargetEntries(updates, now, 6)) <==> SuppliedDefined(updates)
  {
    var e0 := TargetEntries(updates, now, 0);
    var e1 := TargetEntries(updates, now, 1);
    var e2 := TargetEntries(updates, now, 2);
    var e3 := TargetEntries(updates, now, 3);
    var e4 := TargetEntries(updates, now, 4);
    var e5 := TargetEntries(updates, now, 5);
    var e6 := TargetEntries(updates, now, 6);
    forall n: nat | 1 <= n <= 6 ensures EntriesDefined(TargetEntries(updates, now, n)) <==>
      EntriesDefined(TargetEntries(updates, now, n - 1)) && (Supplied(updates, n - 1) ==> Defined(Get(updates, UpdatableFields[n - 1])))
    {
      var prev := TargetEntries(updates, now, n - 1);
      var cur := TargetEntries(updates, now, n);
      assert forall i | 0 <= i < |prev| :: cur[i] == prev[i];
      if Supplied(updates, n - 1) {
        assert cur[|prev|].1 == Get(updates, UpdatableFields[n - 1]);
      }
    }
    assert EntriesDefined(e0);
  }

  /** What the update writes: `updatedAt` is restamped, each supplied
      whitelisted field takes its new value, and nothing else is written,
      so `id`, `projectId` and `createdAt` keep their stored values. */
  lemma {:induction false} WhitelistedAt(updates: Record, now: string)
    ensures "updatedAt" in Whitelisted(updates, now) && Whitelisted(updates, now)["updatedAt"] == Str(now)
    ensures forall i | 0 <= i < |UpdatableFields| && Supplied(updates, i) ::
      UpdatableFields[i] in Whitelisted(updates, now) && Whitelisted(updates, now)[UpdatableFields[i]] == Get(updates, UpdatableFields[i])
    ensures forall a | a in Whitelisted(updates, now) ::
      a == "updatedAt" || exists i | 0 <= i < |UpdatableFields| :: a == UpdatableFields[i] && Supplied(updates, i)
    ensures "id" !in Whitelisted(updates, now) && "projectId" !in Whitelisted(updates, now) && "createdAt" !in Whitelisted(updates, now)
  {
    WhitelistedStamp(updates, now);
    WhitelistedSupplied(updates, now);
    WhitelistedOnly(updates, now);
    FieldsDistinct();
  }

  lemma {:induction false} WhitelistedStamp(updates: Record, now: string)
    ensures "updatedAt" in Whitelisted(updates, now) && Whitelisted(updates, now)["updatedAt"] == Str(now)
  {
    var es := TargetEntries(updates, now, 6);
    TargetDistinct(updates, now);
    EntriesPicked(updates, now, 6);
    EntriesMapAt(es);
    assert es[0] == ("updatedAt", Str(now));
  }

  lemma {:induction false} WhitelistedSupplied(updates: Record, now: string)
    ensures forall i | 0 <= i < |UpdatableFields| && Supplied(updates, i) ::
      UpdatableFields[i] in Whitelisted(updates, now) && Whitelisted(updates, now)[UpdatableFields[i]] == Get(updates, UpdatableFields[i])
  {
    var es := TargetEntries(updates, now, 6);
    var ps := Picked(updates, 6);
    TargetDistinct(updates, now);
    EntriesPicked(updates, now, 6);
    PickedAt(updates, 6);
    EntriesMapAt(es);
    forall i | 0 <= i < |UpdatableFields| && Supplied(updates, i)
      ensures UpdatableFields[i] in Whitelisted(updates, now) && Whitelisted(updates, now)[UpdatableFields[i]] == Get(updates, UpdatableFields[i])
    {
      var k :| 0 <= k < |ps| && ps[k] == i;
      assert es[k + 1] == FieldEntry(updates, i);
    }
  }

  lemma {:induction false} WhitelistedOnly(updates: Record, now: string)
    ensures forall a | a in Whitelisted(updates, now) ::
      a == "updatedAt" || exists i | 0 <= i < |UpdatableFields| :: a == UpdatableFields[i] && Supplied(updates, i)
  {
    var es := TargetEntries(updates, now, 6);
    var ps := Picked(updates, 6);
    EntriesPicked(updates, now, 6);
    PickedAt(updates, 6);
    EntriesMapAt(es);
    forall a | a in Whitelisted(updates, now)
      ensures a == "updatedAt" || exists i | 0 <= i < |UpdatableFields| :: a == UpdatableFields[i] && Supplied(updates, i)
    {
      var k :| 0 <= k < |es| && a == es[k].0;
      if k > 0 {
        assert es[k] == FieldEntry(updates, ps[k - 1]);
      }
    }
  }

  /** The customers of a project: partition `PROJECT#id`, sort keys
      starting `TARGET#`. */
  function TargetQuery(projectId: string): (q: QueryRequest)
    ensures QueryResolves(q) && Marshallable(q.values)
  {
    QueryRequest(None, KeyCondition("PK", ":projectId", BeginsWith("SK", ":targetPrefix")),
      map[":projectId" := Str(ProjectPk(projectId)), ":targetPrefix" := Str("TARGET#")], None)
  }

  lemma {:induction false} TargetKeyValid(projectId: string, targetId: string)
    ensures ValidKey(TargetKey(projectId, targetId))
  {
    assert |ProjectPk(projectId)| >= 8 && |TargetSk(targetId)| >= 7;
  }

  class TargetService {
    /** `{ ...targetData, id, createdAt, updatedAt }` stored under its
        project; the record without PK and SK is returned. */
    static method Create(t: Table, targetData: Record, id: string, now: string) returns (r: Result<Record>)
      requires t.Valid()
      modifies t
      ensures t.Valid()
      ensures "PK" !in targetData && "SK" !in targetData ==> (r.Ok? <==> Marshallable(Stamped(targetData, id, now)))
      ensures "PK" !in targetData && "SK" !in targetData && r.Ok? ==>
        var key := TargetKey(Interpolate(Js.Get(targetData, "projectId")), id);
        t.rows == old(t.rows)[key := WithKey(key, Stamped(targetData, id, now))]
      ensures r.Ok? ==> r.value == Stamped(targetData, id, now)
      ensures r.Thrown? ==> t.rows == old(t.rows)
    {
      var target := Stamped(targetData, id, now);
      assert Js.Get(target, "projectId") == Js.Get(targetData, "projectId");
      var p := Interpolate(Js.Get(target, "projectId"));
      TargetKeyValid(p, id);
      r := PutRecord(t, TargetKey(p, id), target);
    }

    /** Every row of the project's partition under `TARGET#`, with PK and
        SK removed. */
    static method GetByProject(t: Table, projectId: string) returns (r: Result<seq<Record>>)
      requires t.Valid()
      ensures r.Ok? && ListsWithout(r.value, Matching(t.rows, TargetQuery(projectId)), None, KeyAttrs)
      ensures forall k :: k in Matching(t.rows, TargetQuery(projectId)) <==>
        k in t.rows && k.pk == ProjectPk(projectId) && StartsWith(k.sk, "TARGET#")
    {
      var q := TargetQuery(projectId);
      PartitionRows(t.rows, q, ":projectId", ProjectPk(projectId), ":targetPrefix", "TARGET#");
      var res := t.Query(q);
      r := Ok(StripAll(res.value, KeyAttrs));
    }

    /** The stored target without PK and SK, or null when absent. */
    static method Get(t: Table, projectId: string, targetId: string) returns (r: Result<Option<Record>>)
      requires t.Valid()
      ensures r == Ok(Stored(t.rows, TargetKey(projectId, targetId)))
    {
      TargetKeyValid(projectId, targetId);
      r := Fetch(t, TargetKey(projectId, targetId));
    }

    /** Writes `updatedAt` and the supplied whitelisted fields (upserting an
        absent row) and returns the new row without PK and SK. */
    static method Update(t: Table, projectId: string, targetId: string, updates: Record, now: string)
      returns (r: Result<Record>)
      requires t.Valid()
      modifies t
      ensures t.Valid()
      ensures r.Ok? <==> SuppliedDefined(updates)
      ensures r.Ok? ==>
        var row := Base(old(t.rows), TargetKey(projectId, targetId)) + Whitelisted(updates, now);
        r.value == Without(row, KeyAttrs) && t.rows == old(t.rows)[TargetKey(projectId, targetId) := row]
      ensures r.Thrown? ==> t.rows == old(t.rows)
    {
      var key := TargetKey(projectId, targetId);
      TargetKeyValid(projectId, targetId);
      var expression, clauses, names, values := BuildTargetUpdate(updates, now);
      TargetUpdateOutcome(t.rows, key, updates, now);
      var res := t.UpdateItem(UpdateRequest(key, clauses, names, values));
      if res.Thrown? {
        return Thrown(res.message);
      }
      r := Ok(Without(res.value, KeyAttrs));
    }

    static method Delete(t: Table, projectId: string, targetId: string) returns (r: Result<()>)
      requires t.Valid()
      modifies t
      ensures t.Valid()
      ensures r.Ok? && t.rows == old(t.rows) - {TargetKey(projectId, targetId)}
    {
      TargetKeyValid(projectId, targetId);
      r := t.DeleteItem(TargetKey(projectId, targetId));
    }
  }
}
