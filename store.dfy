/** The single DynamoDB table the services share, as far as the services
    rely on it: items addressed by a (PK, SK) pair, `SET` update expressions
    with placeholder maps, and key-condition queries on the table or on the
    GSI1 index. */
module Store {
  import opened Js

  datatype Key = Key(pk: string, sk: string)

  /** An item is a record of attributes; it carries its own key as the
      string attributes PK and SK. */
  type Item = Record

  const KeyAttrs: set<string> := {"PK", "SK"}

  /** The key an item names through its PK and SK attributes. */
  function ItemKey(item: Item): Option<Key>
  {
    match (Get(item, "PK"), Get(item, "SK"))
    case (Str(pk), Str(sk)) => Some(Key(pk, sk))
    case _ => None
  }

  /** DynamoDB rejects a key attribute holding the empty string. */
  predicate ValidKey(k: Key)
  {
    k.pk != "" && k.sk != ""
  }

  /** Every row is stored under the key its own attributes name. */
  ghost predicate WellKeyed(rows: map<Key, Item>)
  {
    forall k | k in rows :: ItemKey(rows[k]) == Some(k)
  }

  /** The document client converts a record for the wire only when no
      value in it holds `undefined`; the client is built without
      `removeUndefinedValues`, so any such value makes the call throw
      before anything is sent. */
  predicate Marshallable(r: Record)
  {
    forall a | a in r :: Defined(r[a])
  }

  const UndefinedMessage := "Pass options.removeUndefinedValues=true to remove undefined values from map/array/set."

  /** `{ PK: k.pk, SK: k.sk, ...data }`. */
  function WithKey(k: Key, data: Record): (item: Item)
    ensures "PK" !in data && "SK" !in data ==> ItemKey(item) == Some(k)
    ensures forall a | a in data :: a in item && item[a] == data[a]
  {
    map["PK" := Str(k.pk), "SK" := Str(k.sk)] + data
  }

  /** `const { a, b, ...rest } = item` keeps `rest`. */
  function Without(item: Record, attrs: set<string>): (rest: Record)
    ensures forall a :: a in rest <==> a in item && a !in attrs
    ensures forall a | a in rest :: rest[a] == item[a]
  {
    map a | a in item && a !in attrs :: item[a]
  }

  /** Stripping the key from a keyed record gives back the record. */
  lemma {:induction false} WithoutWithKey(k: Key, data: Record)
    requires "PK" !in data && "SK" !in data
    ensures Without(WithKey(k, data), KeyAttrs) == data
  {
    var item := WithKey(k, data);
    assert Without(item, KeyAttrs).Keys == data.Keys;
  }

  // ---------------------------------------------------------------------
  // Update expressions

  /** One `#name = :value` clause of a `SET` action. */
  datatype SetClause = SetClause(namePh: string, valuePh: string)

  datatype UpdateRequest = UpdateRequest(
    key: Key,
    clauses: seq<SetClause>,
    names: map<string, string>,
    values: map<string, Value>)

  function ClauseText(c: SetClause): string
  {
    c.namePh + " = " + c.valuePh
  }

  /** The clauses joined with ", ". */
  function ClausesText(cs: seq<SetClause>): string
  {
    if |cs| == 0 then ""
    else if |cs| == 1 then ClauseText(cs[0])
    else ClauseText(cs[0]) + ", " + ClausesText(cs[1..])
  }

  /** The `UpdateExpression` string sent for a request. */
  function UpdateExpression(u: UpdateRequest): string
  {
    "SET " + ClausesText(u.clauses)
  }

  /** Appending a clause appends its text after a ", " separator. */
  lemma {:induction false} ClausesTextSnoc(cs: seq<SetClause>, c: SetClause)
    ensures ClausesText(cs + [c]) ==
      if cs == [] then ClauseText(c) else ClausesText(cs) + ", " + ClauseText(c)
  {
    if |cs| > 1 {
      assert (cs + [c])[1..] == cs[1..] + [c];
      ClausesTextSnoc(cs[1..], c);
    } else if |cs| == 1 {
      assert (cs + [c])[1..] == [c];
    }
  }

  /** Every placeholder the clauses use is bound. */
  predicate Resolves(cs: seq<SetClause>, names: map<string, string>, values: map<string, Value>)
  {
    forall c | c in cs :: c.namePh in names && c.valuePh in values
  }

  /** The name and value placeholders the clauses mention. */
  function NamePhs(cs: seq<SetClause>): set<string>
  {
    set i | 0 <= i < |cs| :: cs[i].namePh
  }

  function ValuePhs(cs: seq<SetClause>): set<string>
  {
    set i | 0 <= i < |cs| :: cs[i].valuePh
  }

  /** Every bound placeholder is used (DynamoDB rejects unused ones). */
  predicate AllUsed(u: UpdateRequest)
  {
    u.names.Keys <= NamePhs(u.clauses) && u.values.Keys <= ValuePhs(u.clauses)
  }

  /** The attribute the `i`-th clause writes. */
  function TargetAt(u: UpdateRequest, i: int): string
    requires Resolves(u.clauses, u.names, u.values) && 0 <= i < |u.clauses|
  {
    u.names[u.clauses[i].namePh]
  }

  predicate TouchesKey(u: UpdateRequest)
    requires Resolves(u.clauses, u.names, u.values)
  {
    exists i | 0 <= i < |u.clauses| :: TargetAt(u, i) in KeyAttrs
  }

  /** Two clauses write the same attribute. */
  predicate Overlaps(u: UpdateRequest)
    requires Resolves(u.clauses, u.names, u.values)
  {
    exists i, j | 0 <= i < j < |u.clauses| :: TargetAt(u, i) == TargetAt(u, j)
  }

  /** The attribute values the clauses assign, later clauses last. */
  function Assigned(cs: seq<SetClause>, names: map<string, string>, values: map<string, Value>): map<string, Value>
    requires Resolves(cs, names, values)
  {
    if cs == [] then map[]
    else
      var c := cs[|cs| - 1];
      Assigned(cs[..|cs| - 1], names, values)[names[c.namePh] := values[c.valuePh]]
  }

  /** An attribute is assigned exactly when some clause targets it; when no
      two clauses target the same attribute, it gets that clause's value. */
  lemma {:induction false} AssignedAt(cs: seq<SetClause>, names: map<string, string>, values: map<string, Value>, a: string)
    requires Resolves(cs, names, values)
    ensures a in Assigned(cs, names, values) <==> exists i | 0 <= i < |cs| :: names[cs[i].namePh] == a
    ensures forall i | 0 <= i < |cs| && names[cs[i].namePh] == a ::
      ((forall j | i < j < |cs| :: names[cs[j].namePh] != a) ==> Assigned(cs, names, values)[a] == values[cs[i].valuePh])
  {
    if cs != [] {
      var init := cs[..|cs| - 1];
      assert forall c | c in init :: c in cs;
      AssignedAt(init, names, values, a);
      forall i | 0 <= i < |init| ensures init[i] == cs[i] { }
    }
  }

  /** The row an update starts from: the stored one, or for an absent key
      a fresh item holding just the key (updates upsert). */
  function Base(rows: map<Key, Item>, k: Key): Item
  {
    if k in rows then rows[k] else WithKey(k, map[])
  }

  /** The outcome of an `UpdateItem` call with `ReturnValues: 'ALL_NEW'`. */
  function Update(rows: map<Key, Item>, u: UpdateRequest): Result<Item>
  {
    if !Marshallable(u.values) then Thrown(UndefinedMessage)
    else if !ValidKey(u.key) then Thrown("ValidationException: empty key attribute")
    else if u.clauses == [] then Thrown("ValidationException: Invalid UpdateExpression: Syntax error")
    else if !Resolves(u.clauses, u.names, u.values) then Thrown("ValidationException: undefined placeholder")
    else if !AllUsed(u) then Thrown("ValidationException: unused placeholder")
    else if TouchesKey(u) then Thrown("ValidationException: Cannot update attribute; it is part of the key")
    else if Overlaps(u) then Thrown("ValidationException: Two document paths overlap with each other")
    else Ok(Base(rows, u.key) + Assigned(u.clauses, u.names, u.values))
  }

  /** Overlaying the assignments of clauses that avoid the key attributes
      and target pairwise different attributes. */
  lemma {:induction false} OverlayEffect(base: Item, k: Key, cs: seq<SetClause>, names: map<string, string>, values: map<string, Value>)
    requires Resolves(cs, names, values)
    requires ItemKey(base) == Some(k)
    requires forall i | 0 <= i < |cs| :: names[cs[i].namePh] !in KeyAttrs
    requires forall i, j | 0 <= i < j < |cs| :: names[cs[i].namePh] != names[cs[j].namePh]
    ensures ItemKey(base + Assigned(cs, names, values)) == Some(k)
    ensures forall i | 0 <= i < |cs| ::
      (names[cs[i].namePh] in base + Assigned(cs, names, values)
       && (base + Assigned(cs, names, values))[names[cs[i].namePh]] == values[cs[i].valuePh])
    ensures forall a | a in base && (forall i | 0 <= i < |cs| :: names[cs[i].namePh] != a) ::
      a in base + Assigned(cs, names, values) && (base + Assigned(cs, names, values))[a] == base[a]
    ensures forall a | a in base + Assigned(cs, names, values) ::
      a in base || exists i | 0 <= i < |cs| :: names[cs[i].namePh] == a
  {
    var asg := Assigned(cs, names, values);
    AssignedAt(cs, names, values, "PK");
    AssignedAt(cs, names, values, "SK");
    assert Get(base + asg, "PK") == Get(base, "PK");
    assert Get(base + asg, "SK") == Get(base, "SK");
    forall i | 0 <= i < |cs|
      ensures names[cs[i].namePh] in asg && asg[names[cs[i].namePh]] == values[cs[i].valuePh]
    {
      AssignedAt(cs, names, values, names[cs[i].namePh]);
    }
    forall a | a in asg
      ensures exists i | 0 <= i < |cs| :: names[cs[i].namePh] == a
    {
      AssignedAt(cs, names, values, a);
    }
  }

  /** The conditions under which DynamoDB accepts an update, stated as
      plain quantifiers over clause positions. */
  predicate Accepted(u: UpdateRequest)
  {
    Marshallable(u.values) && ValidKey(u.key) && u.clauses != [] && Resolves(u.clauses, u.names, u.values) && AllUsed(u)
    && (forall i | 0 <= i < |u.clauses| :: u.names[u.clauses[i].namePh] !in KeyAttrs)
    && (forall i, j | 0 <= i < j < |u.clauses| :: u.names[u.clauses[i].namePh] != u.names[u.clauses[j].namePh])
  }

  /** DynamoDB accepts an update exactly under those conditions, and then
      overlays the assignments on the base row. */
  lemma {:induction false} UpdateAccepted(rows: map<Key, Item>, u: UpdateRequest)
    ensures Update(rows, u).Ok? <==> Accepted(u)
    ensures Accepted(u) ==> Update(rows, u) == Ok(Base(rows, u.key) + Assigned(u.clauses, u.names, u.values))
  {
    if Resolves(u.clauses, u.names, u.values) {
      TouchesKeyAt(u);
      OverlapsAt(u);
    }
  }

  /** `TouchesKey` as a quantifier over clause positions. */
  lemma {:induction false} TouchesKeyAt(u: UpdateRequest)
    requires Resolves(u.clauses, u.names, u.values)
    ensures TouchesKey(u) <==> !forall i | 0 <= i < |u.clauses| :: u.names[u.clauses[i].namePh] !in KeyAttrs
  {
    if TouchesKey(u) {
      var i :| 0 <= i < |u.clauses| && TargetAt(u, i) in KeyAttrs;
      assert u.names[u.clauses[i].namePh] in KeyAttrs;
    } else {
      forall i | 0 <= i < |u.clauses|
        ensures u.names[u.clauses[i].namePh] !in KeyAttrs
      {
        assert !(TargetAt(u, i) in KeyAttrs);
      }
    }
  }

  /** `Overlaps` as a quantifier over pairs of clause positions. */
  lemma {:induction false} OverlapsAt(u: UpdateRequest)
    requires Resolves(u.clauses, u.names, u.values)
    ensures Overlaps(u) <==>
      !forall i, j | 0 <= i < j < |u.clauses| :: u.names[u.clauses[i].namePh] != u.names[u.clauses[j].namePh]
  {
    if Overlaps(u) {
      var i, j :| 0 <= i < j < |u.clauses| && TargetAt(u, i) == TargetAt(u, j);
      assert u.names[u.clauses[i].namePh] == u.names[u.clauses[j].namePh];
    } else {
      forall i, j | 0 <= i < j < |u.clauses|
        ensures u.names[u.clauses[i].namePh] != u.names[u.clauses[j].namePh]
      {
        assert TargetAt(u, i) != TargetAt(u, j);
      }
    }
  }

  /** An accepted update writes exactly the targeted attributes, with the
      value of the clause that targets each, keeps every other attribute of
      the row (or starts from the bare key), and never moves the row. */
  lemma {:induction false} UpdateEffect(rows: map<Key, Item>, u: UpdateRequest)
    requires WellKeyed(rows)
    requires Update(rows, u).Ok?
    ensures Accepted(u)
    ensures ItemKey(Update(rows, u).value) == Some(u.key)
    ensures var row := Update(rows, u).value;
      forall i | 0 <= i < |u.clauses| :: TargetAt(u, i) in row && row[TargetAt(u, i)] == u.values[u.clauses[i].valuePh]
    ensures var row, base := Update(rows, u).value, Base(rows, u.key);
      forall a | a in base && (forall i | 0 <= i < |u.clauses| :: TargetAt(u, i) != a) :: a in row && row[a] == base[a]
    ensures var row := Update(rows, u).value;
      forall a | a in row :: a in Base(rows, u.key) || exists i | 0 <= i < |u.clauses| :: TargetAt(u, i) == a
  {
    UpdateAccepted(rows, u);
    OverlayEffect(Base(rows, u.key), u.key, u.clauses, u.names, u.values);
  }

  // ---------------------------------------------------------------------
  // Updates built from the entries of an object, one `#k = :k` clause per
  // property, with `#k` bound to `k` and `:k` to the property's value.

  /** A property of an object, as `Object.entries` lists it. */
  type Entry = (string, Value)

  /** The property names of an object are pairwise different. */
  predicate DistinctNames(es: seq<Entry>)
  {
    forall i, j | 0 <= i < j < |es| :: es[i].0 != es[j].0
  }

  function EntryClause(k: string): SetClause
  {
    SetClause("#" + k, ":" + k)
  }

  /** The clause list, one clause per entry in entry order. */
  function EntryClauses(es: seq<Entry>): seq<SetClause>
  {
    seq(|es|, i requires 0 <= i < |es| => EntryClause(es[i].0))
  }

  /** The `ExpressionAttributeNames` map, built by successive assignment. */
  function EntryNames(es: seq<Entry>): map<string, string>
  {
    if es == [] then map[] else EntryNames(es[..|es| - 1])["#" + es[|es| - 1].0 := es[|es| - 1].0]
  }

  /** The `ExpressionAttributeValues` map, built by successive assignment. */
  function EntryValues(es: seq<Entry>): map<string, Value>
  {
    if es == [] then map[] else EntryValues(es[..|es| - 1])[":" + es[|es| - 1].0 := es[|es| - 1].1]
  }

  /** The object the entries describe. */
  function EntriesMap(es: seq<Entry>): Record
  {
    if es == [] then map[] else EntriesMap(es[..|es| - 1])[es[|es| - 1].0 := es[|es| - 1].1]
  }

  /** The update request for a key and a list of entries. */
  function EntryRequest(key: Key, es: seq<Entry>): UpdateRequest
  {
    UpdateRequest(key, EntryClauses(es), EntryNames(es), EntryValues(es))
  }

  lemma {:induction false} TagInjective(tag: string, a: string, b: string)
    ensures tag + a == tag + b <==> a == b
  {
    if tag + a == tag + b {
      assert a == (tag + a)[|tag|..] && b == (tag + b)[|tag|..];
    }
  }

  /** The names map binds `#k` to `k` for every entry and nothing else. */
  lemma {:induction false} EntryNamesAt(es: seq<Entry>)
    ensures forall n :: n in EntryNames(es) <==> exists i | 0 <= i < |es| :: n == "#" + es[i].0
    ensures forall i | 0 <= i < |es| :: "#" + es[i].0 in EntryNames(es) && EntryNames(es)["#" + es[i].0] == es[i].0
  {
    if es != [] {
      var init := es[..|es| - 1];
      var last := es[|es| - 1];
      EntryNamesAt(init);
      assert forall i | 0 <= i < |init| :: init[i] == es[i];
      forall i | 0 <= i < |init|
        ensures EntryNames(es)["#" + es[i].0] == es[i].0
      {
        TagInjective("#", es[i].0, last.0);
      }
    }
  }

  /** The values map binds `:k` for every entry and nothing else; with
      pairwise different names, to that entry's value. */
  lemma {:induction false} EntryValuesAt(es: seq<Entry>)
    ensures forall v :: v in EntryValues(es) <==> exists i | 0 <= i < |es| :: v == ":" + es[i].0
    ensures DistinctNames(es) ==> forall i | 0 <= i < |es| :: EntryValues(es)[":" + es[i].0] == es[i].1
  {
    EntryValuesKeys(es);
    if DistinctNames(es) {
      EntryValuesBound(es);
    }
  }

  lemma {:induction false} EntryValuesKeys(es: seq<Entry>)
    ensures forall v :: v in EntryValues(es) <==> exists i | 0 <= i < |es| :: v == ":" + es[i].0
  {
    if es != [] {
      var init := es[..|es| - 1];
      EntryValuesKeys(init);
      assert forall i | 0 <= i < |init| :: init[i] == es[i];
    }
  }

  lemma {:induction false} EntryValuesBound(es: seq<Entry>)
    requires DistinctNames(es)
    ensures forall i | 0 <= i < |es| :: ":" + es[i].0 in EntryValues(es) && EntryValues(es)[":" + es[i].0] == es[i].1
  {
    if es != [] {
      var init := es[..|es| - 1];
      var last := es[|es| - 1];
      assert forall i | 0 <= i < |init| :: init[i] == es[i];
      assert DistinctNames(init);
      EntryValuesBound(init);
      forall i | 0 <= i < |init|
        ensures EntryValues(es)[":" + es[i].0] == es[i].1
      {
        TagInjective(":", es[i].0, last.0);
      }
    }
  }

  /** The object holds every entry's name; with pairwise different names,
      with that entry's value. */
  lemma {:induction false} EntriesMapAt(es: seq<Entry>)
    ensures forall k :: k in EntriesMap(es) <==> exists i | 0 <= i < |es| :: k == es[i].0
    ensures DistinctNames(es) ==> forall i | 0 <= i < |es| :: EntriesMap(es)[es[i].0] == es[i].1
  {
    if es != [] {
      var init := es[..|es| - 1];
      EntriesMapAt(init);
      assert forall i | 0 <= i < |init| :: init[i] == es[i];
      if DistinctNames(es) {
        assert DistinctNames(init);
      }
    }
  }

  lemma {:induction false} EntryResolves(es: seq<Entry>)
    ensures Resolves(EntryClauses(es), EntryNames(es), EntryValues(es))
  {
    var cs := EntryClauses(es);
    EntryNamesAt(es);
    EntryValuesAt(es);
    forall c | c in cs ensures c.namePh in EntryNames(es) && c.valuePh in EntryValues(es) {
      var i :| 0 <= i < |cs| && cs[i] == c;
      assert c == EntryClause(es[i].0);
    }
  }

  /** Every placeholder a request built from entries binds is used. */
  lemma {:induction false} EntryUsed(key: Key, es: seq<Entry>)
    ensures AllUsed(EntryRequest(key, es))
  {
    var cs := EntryClauses(es);
    EntryNamesAt(es);
    EntryValuesAt(es);
    forall n | n in EntryNames(es) ensures n in NamePhs(cs) {
      var i :| 0 <= i < |es| && n == "#" + es[i].0;
      assert cs[i].namePh == n;
    }
    forall v | v in EntryValues(es) ensures v in ValuePhs(cs) {
      var i :| 0 <= i < |es| && v == ":" + es[i].0;
      assert cs[i].valuePh == v;
    }
  }

  /** The `i`-th clause of a request built from entries writes the `i`-th
      property. */
  lemma {:induction false} EntryTargets(es: seq<Entry>)
    ensures Resolves(EntryClauses(es), EntryNames(es), EntryValues(es))
    ensures forall i | 0 <= i < |es| :: EntryNames(es)[EntryClauses(es)[i].namePh] == es[i].0
  {
    EntryResolves(es);
    EntryNamesAt(es);
  }

  /** Clauses built from entries, under maps that bind each entry's
      placeholders to its name and value, assign the object the entries
      describe. */
  lemma {:induction false} AssignedEntries(es: seq<Entry>, names: map<string, string>, values: map<string, Value>)
    requires forall i | 0 <= i < |es| :: "#" + es[i].0 in names && names["#" + es[i].0] == es[i].0
    requires forall i | 0 <= i < |es| :: ":" + es[i].0 in values && values[":" + es[i].0] == es[i].1
    ensures Resolves(EntryClauses(es), names, values)
    ensures Assigned(EntryClauses(es), names, values) == EntriesMap(es)
  {
    var cs := EntryClauses(es);
    assert Resolves(cs, names, values) by {
      forall c | c in cs ensures c.namePh in names && c.valuePh in values {
        var i :| 0 <= i < |cs| && cs[i] == c;
      }
    }
    if es != [] {
      var init := es[..|es| - 1];
      assert forall i | 0 <= i < |init| :: init[i] == es[i];
      AssignedEntries(init, names, values);
      assert cs[..|cs| - 1] == EntryClauses(init);
    }
  }

  /** With pairwise different names, the clauses assign exactly the object
      the entries describe. */
  lemma {:induction false} EntryAssigned(es: seq<Entry>)
    requires DistinctNames(es)
    ensures Resolves(EntryClauses(es), EntryNames(es), EntryValues(es))
    ensures Assigned(EntryClauses(es), EntryNames(es), EntryValues(es)) == EntriesMap(es)
  {
    EntryNamesAt(es);
    EntryValuesAt(es);
    AssignedEntries(es, EntryNames(es), EntryValues(es));
  }

  /** Acceptance of a request whose `i`-th clause writes the `i`-th of a
      list of properties. */
  lemma {:induction false} AcceptedByTargets(u: UpdateRequest, es: seq<Entry>)
    requires Resolves(u.clauses, u.names, u.values) && AllUsed(u) && |u.clauses| == |es|
    requires forall i | 0 <= i < |es| :: u.names[u.clauses[i].namePh] == es[i].0
    ensures Accepted(u) <==>
      Marshallable(u.values) && ValidKey(u.key) && es != [] && DistinctNames(es) && forall i | 0 <= i < |es| :: es[i].0 !in KeyAttrs
  {
    TargetsAvoidKeys(u, es);
    TargetsApart(u, es);
  }

  lemma {:induction false} TargetsAvoidKeys(u: UpdateRequest, es: seq<Entry>)
    requires Resolves(u.clauses, u.names, u.values) && |u.clauses| == |es|
    requires forall i | 0 <= i < |es| :: u.names[u.clauses[i].namePh] == es[i].0
    ensures (forall i | 0 <= i < |u.clauses| :: u.names[u.clauses[i].namePh] !in KeyAttrs)
      <==> forall i | 0 <= i < |es| :: es[i].0 !in KeyAttrs
  {
  }

  lemma {:induction false} TargetsApart(u: UpdateRequest, es: seq<Entry>)
    requires Resolves(u.clauses, u.names, u.values) && |u.clauses| == |es|
    requires forall i | 0 <= i < |es| :: u.names[u.clauses[i].namePh] == es[i].0
    ensures (forall i, j | 0 <= i < j < |u.clauses| :: u.names[u.clauses[i].namePh] != u.names[u.clauses[j].namePh])
      <==> DistinctNames(es)
  {
    var cs := u.clauses;
    var names := u.names;
    if DistinctNames(es) {
      forall i, j | 0 <= i < j < |cs| ensures names[cs[i].namePh] != names[cs[j].namePh] {
        assert es[i].0 != es[j].0;
      }
    }
  }

  lemma {:induction false} EntryAccepted(key: Key, es: seq<Entry>)
    ensures Accepted(EntryRequest(key, es)) <==>
      ValidKey(key) && es != [] && DistinctNames(es) && EntriesDefined(es) && forall i | 0 <= i < |es| :: es[i].0 !in KeyAttrs
  {
    EntryUsed(key, es);
    EntryTargets(es);
    AcceptedByTargets(EntryRequest(key, es), es);
    if DistinctNames(es) {
      EntryValuesDefined(es);
    }
  }

  /** No entry holds `undefined`. */
  predicate EntriesDefined(es: seq<Entry>)
  {
    forall i | 0 <= i < |es| :: Defined(es[i].1)
  }

  /** With pairwise different names, the object the entries describe can
      be sent exactly when no entry holds `undefined`. */
  lemma {:induction false} EntriesMapDefined(es: seq<Entry>)
    requires DistinctNames(es)
    ensures Marshallable(EntriesMap(es)) <==> EntriesDefined(es)
  {
    EntriesMapAt(es);
    if Marshallable(EntriesMap(es)) {
      forall i | 0 <= i < |es| ensures Defined(es[i].1) {
        assert EntriesMap(es)[es[i].0] == es[i].1;
      }
    }
    if EntriesDefined(es) {
      forall a | a in EntriesMap(es) ensures Defined(EntriesMap(es)[a]) {
        var i :| 0 <= i < |es| && a == es[i].0;
      }
    }
  }

  /** With pairwise different names, the values map can be sent exactly
      when no entry holds `undefined`. */
  lemma {:induction false} EntryValuesDefined(es: seq<Entry>)
    requires DistinctNames(es)
    ensures Marshallable(EntryValues(es)) <==> EntriesDefined(es)
  {
    EntryValuesAt(es);
    if Marshallable(EntryValues(es)) {
      forall i | 0 <= i < |es| ensures Defined(es[i].1) {
        assert EntryValues(es)[":" + es[i].0] == es[i].1;
      }
    }
  }

  /** Extending the entries by one extends the clause list by its clause
      and binds its two placeholders. */
  lemma {:induction false} EntrySnoc(es: seq<Entry>, e: Entry)
    ensures EntryClauses(es + [e]) == EntryClauses(es) + [EntryClause(e.0)]
    ensures EntryNames(es + [e]) == EntryNames(es)["#" + e.0 := e.0]
    ensures EntryValues(es + [e]) == EntryValues(es)[":" + e.0 := e.1]
    ensures EntriesMap(es + [e]) == EntriesMap(es)[e.0 := e.1]
  {
    assert (es + [e])[..|es|] == es;
  }

  /** The clauses line up with the entries: each clause's placeholders are
      bound to its entry's name and value, and every bound placeholder is
      used. */
  predicate Lined(cs: seq<SetClause>, names: map<string, string>, values: map<string, Value>, es: seq<Entry>)
  {
    |cs| == |es| && Resolves(cs, names, values)
    && (forall i | 0 <= i < |cs| :: names[cs[i].namePh] == es[i].0 && values[cs[i].valuePh] == es[i].1)
    && names.Keys <= NamePhs(cs) && values.Keys <= ValuePhs(cs)
  }

  /** Appending a clause with fresh placeholders, bound to a new entry,
      keeps clauses and entries lined up. */
  lemma {:induction false} LinedSnoc(cs: seq<SetClause>, names: map<string, string>, values: map<string, Value>, es: seq<Entry>,
                                     c: SetClause, e: Entry)
    requires Lined(cs, names, values, es)
    requires c.namePh !in names && c.valuePh !in values
    ensures Lined(cs + [c], names[c.namePh := e.0], values[c.valuePh := e.1], es + [e])
  {
    LinedSnocBound(cs, names, values, es, c, e);
    LinedSnocUsed(cs, names, values, c, e);
  }

  lemma {:induction false} LinedSnocBound(cs: seq<SetClause>, names: map<string, string>, values: map<string, Value>, es: seq<Entry>,
                                          c: SetClause, e: Entry)
    requires Lined(cs, names, values, es)
    requires c.namePh !in names && c.valuePh !in values
    ensures forall i | 0 <= i < |cs + [c]| ::
      (cs + [c])[i].namePh in names[c.namePh := e.0] && (cs + [c])[i].valuePh in values[c.valuePh := e.1]
      && names[c.namePh := e.0][(cs + [c])[i].namePh] == (es + [e])[i].0
      && values[c.valuePh := e.1][(cs + [c])[i].valuePh] == (es + [e])[i].1
  {
    var cs' := cs + [c];
    forall i | 0 <= i < |cs|
      ensures cs'[i] == cs[i] && (es + [e])[i] == es[i] && cs[i] in cs
    {
    }
  }

  lemma {:induction false} LinedSnocUsed(cs: seq<SetClause>, names: map<string, string>, values: map<string, Value>,
                                         c: SetClause, e: Entry)
    requires names.Keys <= NamePhs(cs) && values.Keys <= ValuePhs(cs)
    ensures names[c.namePh := e.0].Keys <= NamePhs(cs + [c])
    ensures values[c.valuePh := e.1].Keys <= ValuePhs(cs + [c])
  {
    var cs' := cs + [c];
    assert NamePhs(cs') == NamePhs(cs) + {c.namePh} by {
      forall i | 0 <= i < |cs| ensures cs'[i] == cs[i] { }
      assert cs'[|cs|] == c;
    }
    assert ValuePhs(cs') == ValuePhs(cs) + {c.valuePh} by {
      forall i | 0 <= i < |cs| ensures cs'[i] == cs[i] { }
      assert cs'[|cs|] == c;
    }
  }

  /** When each clause writes the name and value of the entry at its
      position, the clauses assign exactly the object the entries
      describe. */
  lemma {:induction false} AssignedByTargets(cs: seq<SetClause>, names: map<string, string>, values: map<string, Value>, es: seq<Entry>)
    requires Resolves(cs, names, values) && |cs| == |es|
    requires forall i | 0 <= i < |cs| :: names[cs[i].namePh] == es[i].0 && values[cs[i].valuePh] == es[i].1
    ensures Assigned(cs, names, values) == EntriesMap(es)
  {
    if cs != [] {
      var n := |cs| - 1;
      assert forall c | c in cs[..n] :: c in cs;
      forall i | 0 <= i < n ensures names[cs[..n][i].namePh] == es[..n][i].0 && values[cs[..n][i].valuePh] == es[..n][i].1 {
        assert cs[..n][i] == cs[i] && es[..n][i] == es[i];
      }
      AssignedByTargets(cs[..n], names, values, es[..n]);
    }
  }

  /** When the bound values are exactly those of the entries, they can be
      sent exactly when no entry holds `undefined`. */
  lemma {:induction false} ValuesDefinedByTargets(cs: seq<SetClause>, values: map<string, Value>, es: seq<Entry>)
    requires |cs| == |es| && values.Keys <= ValuePhs(cs)
    requires forall i | 0 <= i < |cs| :: cs[i].valuePh in values && values[cs[i].valuePh] == es[i].1
    ensures Marshallable(values) <==> EntriesDefined(es)
  {
    if Marshallable(values) {
      forall i | 0 <= i < |es| ensures Defined(es[i].1) {
        assert values[cs[i].valuePh] == es[i].1;
      }
    }
    if EntriesDefined(es) {
      forall v | v in values ensures Defined(values[v]) {
        var i :| 0 <= i < |cs| && cs[i].valuePh == v;
      }
    }
  }

  /** An update whose clauses line up with entries naming pairwise
      different non-key attributes is accepted exactly when no entry holds
      `undefined`, and then overlays the entries on the row. */
  lemma {:induction false} LinedUpdate(rows: map<Key, Item>, u: UpdateRequest, es: seq<Entry>)
    requires Lined(u.clauses, u.names, u.values, es) && ValidKey(u.key) && es != []
    requires DistinctNames(es) && forall i | 0 <= i < |es| :: es[i].0 !in KeyAttrs
    ensures Update(rows, u).Ok? <==> EntriesDefined(es)
    ensures Update(rows, u).Ok? ==> Update(rows, u).value == Base(rows, u.key) + EntriesMap(es)
  {
    AcceptedByTargets(u, es);
    UpdateAccepted(rows, u);
    AssignedByTargets(u.clauses, u.names, u.values, es);
    ValuesDefinedByTargets(u.clauses, u.values, es);
  }

  /** DynamoDB accepts an update built from entries exactly when the key is
      valid, there is at least one entry, the names are pairwise different,
      no value holds `undefined` and no name is a key attribute; it then
      overlays the entries on the row. */
  lemma {:induction false} EntryUpdate(rows: map<Key, Item>, key: Key, es: seq<Entry>)
    ensures Update(rows, EntryRequest(key, es)).Ok? <==>
      ValidKey(key) && es != [] && DistinctNames(es) && EntriesDefined(es) && forall i | 0 <= i < |es| :: es[i].0 !in KeyAttrs
    ensures Update(rows, EntryRequest(key, es)).Ok? ==>
      Update(rows, EntryRequest(key, es)).value == Base(rows, key) + EntriesMap(es)
  {
    UpdateAccepted(rows, EntryRequest(key, es));
    EntryAccepted(key, es);
    if DistinctNames(es) {
      EntryAssigned(es);
    }
  }

  // ---------------------------------------------------------------------
  // Queries

  /** The optional sort-key part of a key condition. */
  datatype SkCondition =
    | AnySk
    | BeginsWith(attr: string, ph: string)
    | SkEquals(attr: string, ph: string)

  /** `pkAttr = pkPh [AND …]`. */
  datatype KeyCondition = KeyCondition(pkAttr: string, pkPh: string, sk: SkCondition)

  datatype QueryRequest = QueryRequest(
    index: Option<string>,
    condition: KeyCondition,
    values: map<string, Value>,
    limit: Option<int>)

  /** The `KeyConditionExpression` string. */
  function ConditionText(c: KeyCondition): string
  {
    c.pkAttr + " = " + c.pkPh +
    match c.sk
    case AnySk => ""
    case BeginsWith(a, p) => " AND begins_with(" + a + ", " + p + ")"
    case SkEquals(a, p) => " AND " + a + " = " + p
  }

  /** The placeholders a key condition mentions. */
  function Placeholders(c: KeyCondition): set<string>
  {
    match c.sk
    case AnySk => {c.pkPh}
    case BeginsWith(_, p) => {c.pkPh, p}
    case SkEquals(_, p) => {c.pkPh, p}
  }

  /** Every placeholder is bound, none is unused, and `begins_with`
      compares against a string. */
  predicate QueryResolves(q: QueryRequest)
  {
    q.values.Keys == Placeholders(q.condition)
    && (q.condition.sk.BeginsWith? ==> q.values[q.condition.sk.ph].Str?)
  }

  predicate Matches(item: Item, q: QueryRequest)
    requires QueryResolves(q)
  {
    var c := q.condition;
    Get(item, c.pkAttr) == q.values[c.pkPh] &&
    match c.sk
    case AnySk => true
    case BeginsWith(a, p) => Get(item, a).Str? && StartsWith(Get(item, a).s, q.values[p].s)
    case SkEquals(a, p) => Get(item, a) == q.values[p]
  }

  /** The rows a query selects. */
  function Matching(rows: map<Key, Item>, q: QueryRequest): (m: map<Key, Item>)
    requires QueryResolves(q)
    ensures forall k :: k in m <==> k in rows && Matches(rows[k], q)
    ensures forall k | k in m :: m[k] == rows[k]
  {
    map k | k in rows && Matches(rows[k], q) :: rows[k]
  }

  /** On a table whose rows carry their own keys, a partition query with a
      sort-key prefix selects exactly the rows of that partition whose sort
      key has the prefix. */
  lemma {:induction false} PartitionRows(rows: map<Key, Item>, q: QueryRequest, pkPh: string, pk: string, prefixPh: string, prefix: string)
    requires WellKeyed(rows)
    requires q.condition == KeyCondition("PK", pkPh, BeginsWith("SK", prefixPh))
    requires QueryResolves(q)
    requires q.values[pkPh] == Str(pk) && q.values[prefixPh] == Str(prefix)
    ensures forall k :: k in Matching(rows, q) <==> k in rows && k.pk == pk && StartsWith(k.sk, prefix)
  {
    forall k | k in rows
      ensures Matches(rows[k], q) <==> k.pk == pk && StartsWith(k.sk, prefix)
    {
      assert ItemKey(rows[k]) == Some(k);
      assert Get(rows[k], "PK") == Str(k.pk) && Get(rows[k], "SK") == Str(k.sk);
    }
  }

  /** A page of a query result: `s` lists rows of `m`, each at most once and
      in some order; a limit caps its length, and a page shorter than the
      limit (or any page without one) lists every row. */
  predicate Lists(s: seq<Item>, m: map<Key, Item>, limit: Option<int>)
  {
    (forall i | 0 <= i < |s| :: ItemKey(s[i]).Some? && ItemKey(s[i]).value in m && m[ItemKey(s[i]).value] == s[i])
    && (forall i, j | 0 <= i < j < |s| :: ItemKey(s[i]) != ItemKey(s[j]))
    && (limit.Some? ==> |s| <= limit.value)
    && (limit.None? || |s| < limit.value ==> forall k | k in m :: exists i | 0 <= i < |s| :: ItemKey(s[i]) == Some(k))
  }

  /** The loop state of a query: the listed rows are distinct matching
      rows, none of them still to visit, and every visited key is listed. */
  predicate Gathered(s: seq<Item>, m: map<Key, Item>, left: set<Key>)
  {
    left <= m.Keys
    && (forall i | 0 <= i < |s| ::
          ItemKey(s[i]).Some? && ItemKey(s[i]).value in m && ItemKey(s[i]).value !in left && m[ItemKey(s[i]).value] == s[i])
    && (forall i, j | 0 <= i < j < |s| :: ItemKey(s[i]) != ItemKey(s[j]))
    && (forall k | k in m && k !in left :: exists i | 0 <= i < |s| :: ItemKey(s[i]) == Some(k))
  }

  /** Listing one more row that carries its key. */
  lemma {:induction false} GatheredStep(s: seq<Item>, m: map<Key, Item>, left: set<Key>, k: Key)
    requires Gathered(s, m, left) && k in left && ItemKey(m[k]) == Some(k)
    ensures Gathered(s + [m[k]], m, left - {k})
  {
    var t := s + [m[k]];
    assert forall i | 0 <= i < |s| :: t[i] == s[i];
    assert t[|s|] == m[k];
    forall k' | k' in m && k' !in left - {k} ensures exists i | 0 <= i < |t| :: ItemKey(t[i]) == Some(k') {
      if k' == k {
        assert ItemKey(t[|s|]) == Some(k);
      } else {
        var i :| 0 <= i < |s| && ItemKey(s[i]) == Some(k');
        assert ItemKey(t[i]) == Some(k');
      }
    }
  }

  /** When the loop stops, the rows gathered are a listing. */
  lemma {:induction false} GatheredLists(s: seq<Item>, m: map<Key, Item>, left: set<Key>, limit: Option<int>)
    requires Gathered(s, m, left) && (limit.Some? ==> |s| <= limit.value)
    requires left == {} || (limit.Some? && |s| >= limit.value)
    ensures Lists(s, m, limit)
  {
  }

  /** DynamoDB accepts a `Limit` only when it is at least 1. */
  predicate LimitOk(limit: Option<int>)
  {
    limit.None? || limit.value >= 1
  }

  /** A page is empty exactly when there are no rows. */
  lemma {:induction false} ListsEmpty(s: seq<Item>, m: map<Key, Item>, limit: Option<int>)
    requires Lists(s, m, limit) && LimitOk(limit)
    ensures s == [] <==> m == map[]
  {
    if s != [] {
      assert ItemKey(s[0]).value in m;
    }
    if m != map[] {
      var k :| k in m;
    }
  }

  /** Each item with the given attributes removed, in order. */
  function StripAll(s: seq<Item>, attrs: set<string>): seq<Record>
  {
    seq(|s|, i requires 0 <= i < |s| => Without(s[i], attrs))
  }

  /** `out` is a listing of the rows of `m`, each once and in some order,
      with `attrs` removed from each. */
  ghost predicate ListsWithout(out: seq<Record>, m: map<Key, Item>, limit: Option<int>, attrs: set<string>)
  {
    exists s :: Lists(s, m, limit) && out == StripAll(s, attrs)
  }

  /** A stripped listing is empty exactly when there are no rows. */
  lemma {:induction false} ListsWithoutEmpty(out: seq<Record>, m: map<Key, Item>, limit: Option<int>, attrs: set<string>)
    requires ListsWithout(out, m, limit, attrs) && LimitOk(limit)
    ensures out == [] <==> m == map[]
  {
    var s :| Lists(s, m, limit) && out == StripAll(s, attrs);
    ListsEmpty(s, m, limit);
  }

  // ---------------------------------------------------------------------
  // The table

  class Table {
    var rows: map<Key, Item>

    ghost predicate Valid()
      reads this
    {
      WellKeyed(rows)
    }

    constructor ()
      ensures Valid() && rows == map[]
    {
      rows := map[];
    }

    /** `GetCommand`: the stored item, if any. */
    method GetItem(k: Key) returns (r: Result<Option<Item>>)
      requires Valid()
      ensures !ValidKey(k) ==> r.Thrown?
      ensures ValidKey(k) ==> r == Ok(if k in rows then Some(rows[k]) else None)
      ensures r.Ok? && r.value.Some? ==> ItemKey(r.value.value) == Some(k)
    {
      if !ValidKey(k) {
        return Thrown("ValidationException: empty key attribute");
      }
      r := Ok(if k in rows then Some(rows[k]) else None);
    }

    /** `PutCommand`: stores (or replaces) the item under the key its PK and
        SK attributes name. */
    method PutItem(item: Item) returns (r: Result<Item>)
      requires Valid()
      modifies this
      ensures Valid()
      ensures r.Thrown? <==> !Marshallable(item) || ItemKey(item).None? || !ValidKey(ItemKey(item).value)
      ensures r.Thrown? ==> rows == old(rows)
      ensures r.Ok? ==> r.value == item && rows == old(rows)[ItemKey(item).value := item]
    {
      if !Marshallable(item) {
        return Thrown(UndefinedMessage);
      }
      var k := ItemKey(item);
      if k.None? {
        return Thrown("ValidationException: One of the required keys was not given a value");
      }
      if !ValidKey(k.value) {
        return Thrown("ValidationException: empty key attribute");
      }
      rows := rows[k.value := item];
      r := Ok(item);
    }

    /** `UpdateCommand` with `ReturnValues: 'ALL_NEW'`. */
    method UpdateItem(u: UpdateRequest) returns (r: Result<Item>)
      requires Valid()
      modifies this
      ensures Valid()
      ensures r == Update(old(rows), u)
      ensures r.Ok? ==> rows == old(rows)[u.key := r.value]
      ensures r.Thrown? ==> rows == old(rows)
    {
      r := Update(rows, u);
      if r.Ok? {
        UpdateEffect(rows, u);
        rows := rows[u.key := r.value];
      }
    }

    /** `DeleteCommand`: removes the row, if any. */
    method DeleteItem(k: Key) returns (r: Result<()>)
      requires Valid()
      modifies this
      ensures Valid()
      ensures r.Thrown? <==> !ValidKey(k)
      ensures r.Ok? ==> rows == old(rows) - {k}
      ensures r.Thrown? ==> rows == old(rows)
    {
      if !ValidKey(k) {
        return Thrown("ValidationException: empty key attribute");
      }
      rows := rows - {k};
      r := Ok(());
    }

    /** `QueryCommand`: a page of the matching rows, at most `Limit` of
        them when a limit is given. */
    method Query(q: QueryRequest) returns (r: Result<seq<Item>>)
      requires Valid()
      ensures r.Thrown? <==> !Marshallable(q.values) || !QueryResolves(q) || !LimitOk(q.limit)
      ensures r.Ok? ==> Lists(r.value, Matching(rows, q), q.limit)
    {
      if !Marshallable(q.values) {
        return Thrown(UndefinedMessage);
      }
      if !QueryResolves(q) {
        return Thrown("ValidationException: invalid expression attribute values");
      }
      if !LimitOk(q.limit) {
        return Thrown("ValidationException: Limit must be greater than or equal to 1");
      }
      var m := Matching(rows, q);
      var s: seq<Item> := [];
      var left := m.Keys;
      while left != {} && (q.limit.None? || |s| < q.limit.value)
        invariant Gathered(s, m, left)
        invariant q.limit.Some? ==> |s| <= q.limit.value
        decreases left
      {
        var k :| k in left;
        assert ItemKey(m[k]) == Some(k);
        GatheredStep(s, m, left, k);
        s := s + [m[k]];
        left := left - {k};
      }
      GatheredLists(s, m, left, q.limit);
      r := Ok(s);
    }
  }
}
