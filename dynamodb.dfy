/** The services of src/lib/dynamodb.ts: a generic layer over the table
    (get, put, update, delete, query, GSI query) and four entity services
    that compose keys on top of it. Users and tenants sit under `USER#id` and
    `TENANT#id` on both halves of the key, projects under their tenant, and
    tasks under their matrix cell `PROJECT#p#TARGET#t`. Unlike the services
    of src/lib/database.ts, these return items with PK and SK still in
    them. The clock is the parameter `now`. */
module DynamoDb {
  import opened Js
  import opened Keys
  import opened Store

  // ---------------------------------------------------------------------
  // Request builders of the generic layer

  /** A JavaScript condition on an optional string argument: present and
      not the empty string. */
  predicate Given(s: Option<string>)
  {
    s.Some? && s.value != ""
  }

  /** The request `query(pk, skPrefix, limit)` sends. */
  function PartitionQuery(pk: string, skPrefix: Option<string>, limit: Option<int>): (q: QueryRequest)
    ensures QueryResolves(q) && Marshallable(q.values)
    ensures q.index == None && q.limit == limit
    ensures ":pk" in q.values && q.values[":pk"] == Str(pk)
    ensures ":sk" in q.values <==> Given(skPrefix)
    ensures Given(skPrefix) ==> q.values[":sk"] == Str(skPrefix.value)
  {
    if Given(skPrefix) then
      QueryRequest(None, KeyCondition("PK", ":pk", BeginsWith("SK", ":sk")),
        map[":pk" := Str(pk), ":sk" := Str(skPrefix.value)], limit)
    else
      QueryRequest(None, KeyCondition("PK", ":pk", AnySk), map[":pk" := Str(pk)], limit)
  }

  /** The request `queryGSI(indexName, pk, sk, limit)` sends: the index
      sort key is compared for equality, not by prefix. */
  function IndexQuery(indexName: string, pk: string, sk: Option<string>, limit: Option<int>): (q: QueryRequest)
    ensures QueryResolves(q) && Marshallable(q.values)
    ensures q.index == Some(indexName) && q.limit == limit
    ensures ":pk" in q.values && q.values[":pk"] == Str(pk)
    ensures ":sk" in q.values <==> Given(sk)
    ensures Given(sk) ==> q.values[":sk"] == Str(sk.value)
  {
    if Given(sk) then
      QueryRequest(Some(indexName), KeyCondition("GSI1PK", ":pk", SkEquals("GSI1SK", ":sk")),
        map[":pk" := Str(pk), ":sk" := Str(sk.value)], limit)
    else
      QueryRequest(Some(indexName), KeyCondition("GSI1PK", ":pk", AnySk), map[":pk" := Str(pk)], limit)
  }

  lemma PrefixConditionText()
    ensures ConditionText(KeyCondition("PK", ":pk", BeginsWith("SK", ":sk"))) == "PK = :pk AND begins_with(SK, :sk)"
  {
    PrefixText("PK", ":pk", "SK", ":sk");
  }

  /** `begins_with` conditions render piece by piece. */
  lemma PrefixText(a: string, p: string, b: string, q: string)
    ensures ConditionText(KeyCondition(a, p, BeginsWith(b, q))) ==
      a + " = " + p + " AND begins_with(" + b + ", " + q + ")"
  {
  }

  lemma IndexConditionText()
    ensures ConditionText(KeyCondition("GSI1PK", ":pk", SkEquals("GSI1SK", ":sk"))) == "GSI1PK = :pk AND GSI1SK = :sk"
  {
    assert ConditionText(KeyCondition("GSI1PK", ":pk", SkEquals("GSI1SK", ":sk"))) ==
      "GSI1PK" + " = " + ":pk" + (" AND " + "GSI1SK" + " = " + ":sk");
  }

  /** The `KeyConditionExpression` of a partition query. */
  lemma PartitionQueryText(pk: string, skPrefix: Option<string>, limit: Option<int>)
    ensures ConditionText(PartitionQuery(pk, skPrefix, limit).condition) ==
      if Given(skPrefix) then "PK = :pk AND begins_with(SK, :sk)" else "PK = :pk"
  {
    var c := PartitionQuery(pk, skPrefix, limit).condition;
    if Given(skPrefix) {
      assert c == KeyCondition("PK", ":pk", BeginsWith("SK", ":sk"));
      PrefixConditionText();
    } else {
      assert c == KeyCondition("PK", ":pk", AnySk);
      assert ConditionText(c) == "PK" + " = " + ":pk" + "";
    }
  }

  /** The `KeyConditionExpression` of a GSI query. */
  lemma IndexQueryText(indexName: string, pk: string, sk: Option<string>, limit: Option<int>)
    ensures ConditionText(IndexQuery(indexName, pk, sk, limit).condition) ==
      if Given(sk) then "GSI1PK = :pk AND GSI1SK = :sk" else "GSI1PK = :pk"
  {
    var c := IndexQuery(indexName, pk, sk, limit).condition;
    if Given(sk) {
      assert c == KeyCondition("GSI1PK", ":pk", SkEquals("GSI1SK", ":sk"));
      IndexConditionText();
    } else {
      assert c == KeyCondition("GSI1PK", ":pk", AnySk);
      assert ConditionText(c) == "GSI1PK" + " = " + ":pk" + "";
    }
  }

  /** A partition query selects exactly the rows of partition `pk`, and
      with a prefix only those whose sort key starts with it. */
  lemma {:induction false} PartitionQueryRows(rows: map<Key, Item>, pk: string, skPrefix: Option<string>, limit: Option<int>)
    requires WellKeyed(rows)
    ensures forall k :: k in Matching(rows, PartitionQuery(pk, skPrefix, limit)) <==>
      k in rows && k.pk == pk && (Given(skPrefix) ==> StartsWith(k.sk, skPrefix.value))
  {
    var q := PartitionQuery(pk, skPrefix, limit);
    if Given(skPrefix) {
      PartitionRows(rows, q, ":pk", pk, ":sk", skPrefix.value);
    } else {
      forall k | k in rows
        ensures Matches(rows[k], q) <==> k.pk == pk
      {
        assert ItemKey(rows[k]) == Some(k);
        assert Get(rows[k], "PK") == Str(k.pk);
      }
    }
  }

  /** A GSI query selects exactly the rows whose GSI1PK is `pk` and, when a
      sort key is given, whose GSI1SK is exactly that string. */
  lemma {:induction false} IndexQueryRows(rows: map<Key, Item>, indexName: string, pk: string, sk: Option<string>, limit: Option<int>)
    ensures forall k :: k in Matching(rows, IndexQuery(indexName, pk, sk, limit)) <==>
      k in rows && Get(rows[k], "GSI1PK") == Str(pk) && (Given(sk) ==> Get(rows[k], "GSI1SK") == Str(sk.value))
  {
    var q := IndexQuery(indexName, pk, sk, limit);
    forall k | k in rows
      ensures Matches(rows[k], q) <==>
        Get(rows[k], "GSI1PK") == Str(pk) && (Given(sk) ==> Get(rows[k], "GSI1SK") == Str(sk.value))
    {
      if Given(sk) {
        assert q.condition.sk == SkEquals("GSI1SK", ":sk");
      } else {
        assert q.condition.sk == AnySk;
      }
    }
  }

  /** `{ ...es, [n]: v }` on an object listed by its entries: an existing
      property keeps its place and takes the new value, a new one goes
      last. */
  function Assign(es: seq<Entry>, n: string, v: Value): seq<Entry>
  {
    var i := NameIndex(es, n);
    if i == |es| then es + [(n, v)] else es[i := (n, v)]
  }

  /** Position of the first entry named `n`, or `|es|`. */
  function NameIndex(es: seq<Entry>, n: string): (i: nat)
    ensures i <= |es|
    ensures i < |es| ==> es[i].0 == n
    ensures forall j | 0 <= j < i :: es[j].0 != n
  {
    if es == [] then 0
    else if es[0].0 == n then 0
    else 1 + NameIndex(es[1..], n)
  }

  /** Assigning a property keeps the names distinct, leaves at least one
      entry, and describes the object with that property set. */
  lemma {:induction false} AssignEntries(es: seq<Entry>, n: string, v: Value)
    requires DistinctNames(es)
    ensures DistinctNames(Assign(es, n, v)) && Assign(es, n, v) != []
    ensures EntriesMap(Assign(es, n, v)) == EntriesMap(es)[n := v]
  {
    var i := NameIndex(es, n);
    if i == |es| {
      AssignAppends(es, n, v);
    } else {
      AssignReplaces(es, n, v, i);
    }
  }

  lemma {:induction false} AssignAppends(es: seq<Entry>, n: string, v: Value)
    requires DistinctNames(es) && NameIndex(es, n) == |es|
    ensures DistinctNames(es + [(n, v)])
    ensures EntriesMap(es + [(n, v)]) == EntriesMap(es)[n := v]
  {
    EntrySnoc(es, (n, v));
    var r := es + [(n, v)];
    forall i, j | 0 <= i < j < |r| ensures r[i].0 != r[j].0 {
      if j == |es| {
        assert r[i] == es[i];
      } else {
        assert r[i] == es[i] && r[j] == es[j];
      }
    }
  }

  lemma {:induction false} AssignReplaces(es: seq<Entry>, n: string, v: Value, i: nat)
    requires DistinctNames(es) && i < |es| && es[i].0 == n
    ensures DistinctNames(es[i := (n, v)])
    ensures EntriesMap(es[i := (n, v)]) == EntriesMap(es)[n := v]
  {
    var r := es[i := (n, v)];
    assert forall j | 0 <= j < |r| :: r[j].0 == es[j].0;
    assert DistinctNames(r);
    var before, after := EntriesMap(es), EntriesMap(r);
    ReplacedKeys(es, n, v, i);
    ReplacedValues(es, n, v, i);
    assert after == before[n := v];
  }

  /** Replacing an entry's value keeps the set of property names. */
  lemma {:induction false} ReplacedKeys(es: seq<Entry>, n: string, v: Value, i: nat)
    requires i < |es| && es[i].0 == n
    ensures EntriesMap(es[i := (n, v)]).Keys == EntriesMap(es).Keys
    ensures n in EntriesMap(es)
  {
    var r := es[i := (n, v)];
    EntriesMapAt(es);
    EntriesMapAt(r);
    forall a | a in EntriesMap(es) ensures a in EntriesMap(r) {
      var j :| 0 <= j < |es| && a == es[j].0;
      assert a == r[j].0;
    }
    forall a | a in EntriesMap(r) ensures a in EntriesMap(es) {
      var j :| 0 <= j < |r| && a == r[j].0;
      assert a == es[j].0;
    }
  }

  /** Replacing an entry's value changes that property only. */
  lemma {:induction false} ReplacedValues(es: seq<Entry>, n: string, v: Value, i: nat)
    requires i < |es| && es[i].0 == n && DistinctNames(es) && DistinctNames(es[i := (n, v)])
    ensures forall a | a in EntriesMap(es) && a in EntriesMap(es[i := (n, v)]) ::
      EntriesMap(es[i := (n, v)])[a] == if a == n then v else EntriesMap(es)[a]
  {
    var r := es[i := (n, v)];
    EntriesMapAt(es);
    EntriesMapAt(r);
    forall a | a in EntriesMap(es) && a in EntriesMap(r) ensures EntriesMap(r)[a] == if a == n then v else EntriesMap(es)[a] {
      var j :| 0 <= j < |r| && a == r[j].0;
      if j != i {
        assert r[j] == es[j];
      }
    }
  }

  // ---------------------------------------------------------------------
  // The generic layer

  class DynamoDBService {
    /** `GetCommand`; the item comes back with its key attributes. */
    static method GetItem(t: Table, pk: string, sk: string) returns (r: Result<Option<Item>>)
      requires t.Valid()
      ensures r.Thrown? <==> !ValidKey(Key(pk, sk))
      ensures r.Ok? ==> r.value == if Key(pk, sk) in t.rows then Some(t.rows[Key(pk, sk)]) else None
    {
      r := t.GetItem(Key(pk, sk));
    }

    /** `PutCommand`, resolving to the item it was given. */
    static method PutItem(t: Table, item: Item) returns (r: Result<Item>)
      requires t.Valid()
      modifies t
      ensures t.Valid()
      ensures r.Thrown? <==> !Marshallable(item) || ItemKey(item).None? || !ValidKey(ItemKey(item).value)
      ensures r.Ok? ==> r.value == item && t.rows == old(t.rows)[ItemKey(item).value := item]
      ensures r.Thrown? ==> t.rows == old(t.rows)
    {
      r := t.PutItem(item);
    }

    /** One `#k = :k` clause per property of `updates`, in order: no
        property is excluded and nothing is added. The new item, key
        attributes included, is returned. */
    static method UpdateItem(t: Table, pk: string, sk: string, updates: seq<Entry>) returns (r: Result<Item>)
      requires t.Valid() && DistinctNames(updates)
      modifies t
      ensures t.Valid()
      ensures r.Ok? <==> (ValidKey(Key(pk, sk)) && updates != [] && EntriesDefined(updates)
        && "PK" !in EntriesMap(updates) && "SK" !in EntriesMap(updates))
      ensures r.Ok? ==> (r.value == Base(old(t.rows), Key(pk, sk)) + EntriesMap(updates)
        && t.rows == old(t.rows)[Key(pk, sk) := r.value])
      ensures r.Thrown? ==> t.rows == old(t.rows)
    {
      EntryUpdate(t.rows, Key(pk, sk), updates);
      EntriesMapAt(updates);
      r := t.UpdateItem(EntryRequest(Key(pk, sk), updates));
    }

    static method DeleteItem(t: Table, pk: string, sk: string) returns (r: Result<()>)
      requires t.Valid()
      modifies t
      ensures t.Valid()
      ensures r.Thrown? <==> !ValidKey(Key(pk, sk))
      ensures r.Ok? ==> t.rows == old(t.rows) - {Key(pk, sk)}
      ensures r.Thrown? ==> t.rows == old(t.rows)
    {
      r := t.DeleteItem(Key(pk, sk));
    }

    /** One page of partition `pk`, filtered by `skPrefix` when it is
        given; `Limit` is passed through unchanged. */
    static method Query(t: Table, pk: string, skPrefix: Option<string>, limit: Option<int>) returns (r: Result<seq<Item>>)
      requires t.Valid()
      ensures r.Thrown? <==> !LimitOk(limit)
      ensures r.Ok? ==> Lists(r.value, Matching(t.rows, PartitionQuery(pk, skPrefix, limit)), limit)
      ensures forall k :: k in Matching(t.rows, PartitionQuery(pk, skPrefix, limit)) <==>
        k in t.rows && k.pk == pk && (Given(skPrefix) ==> StartsWith(k.sk, skPrefix.value))
    {
      PartitionQueryRows(t.rows, pk, skPrefix, limit);
      r := t.Query(PartitionQuery(pk, skPrefix, limit));
    }

    /** One page of an index: rows whose GSI1PK is `pk` and, when `sk` is
        given, whose GSI1SK equals it. */
    static method QueryGsi(t: Table, indexName: string, pk: string, sk: Option<string>, limit: Option<int>)
      returns (r: Result<seq<Item>>)
      requires t.Valid()
      ensures r.Thrown? <==> !LimitOk(limit)
      ensures r.Ok? ==> Lists(r.value, Matching(t.rows, IndexQuery(indexName, pk, sk, limit)), limit)
      ensures forall k :: k in Matching(t.rows, IndexQuery(indexName, pk, sk, limit)) <==>
        k in t.rows && Get(t.rows[k], "GSI1PK") == Str(pk) && (Given(sk) ==> Get(t.rows[k], "GSI1SK") == Str(sk.value))
    {
      IndexQueryRows(t.rows, indexName, pk, sk, limit);
      r := t.Query(IndexQuery(indexName, pk, sk, limit));
    }
  }

  // ---------------------------------------------------------------------
  // Items written by the entity services

  const StampAttrs: set<string> := {"createdAt", "updatedAt"}

  /** `{ ...head, ...data, createdAt: now, updatedAt: now }`: both stamps
      come from one clock reading, and the caller's fields win over the
      head but not over the stamps. */
  function Created(head: Record, data: Record, now: string): (item: Item)
    ensures Get(item, "createdAt") == Str(now) && Get(item, "updatedAt") == Str(now)
    ensures forall a | a in data && a !in StampAttrs :: a in item && item[a] == data[a]
    ensures forall a | a in head && a !in data && a !in StampAttrs :: a in item && item[a] == head[a]
    ensures forall a | a in item :: a in head || a in data || a in StampAttrs
  {
    head + data + map["createdAt" := Str(now), "updatedAt" := Str(now)]
  }

  /** A created item can be sent exactly when the head attributes the
      caller does not override, and the caller's own fields other than the
      two stamps, hold no `undefined`. */
  lemma {:induction false} CreatedMarshallable(head: Record, data: Record, now: string)
    ensures Marshallable(Created(head, data, now)) <==>
      (forall a | a in head && a !in data && a !in StampAttrs :: Defined(head[a]))
      && Marshallable(Without(data, StampAttrs))
  {
    var item := Created(head, data, now);
    if Marshallable(item) {
      forall a | a in Without(data, StampAttrs) ensures Defined(Without(data, StampAttrs)[a]) {
        assert item[a] == data[a];
      }
    }
  }

  function KeyHead(k: Key): Record
  {
    map["PK" := Str(k.pk), "SK" := Str(k.sk)]
  }

  function UserRowKey(userId: string): Key { Key(UserPk(userId), UserPk(userId)) }
  function TenantRowKey(tenantId: string): Key { Key(TenantKey(tenantId), TenantKey(tenantId)) }
  function ProjectRowKey(tenantId: string, projectId: string): Key { Key(TenantKey(tenantId), ProjectSk(projectId)) }
  function TaskRowKey(projectId: string, targetId: string, stageId: string): Key
  {
    Key(CellPk(projectId, targetId), TaskSk(stageId))
  }

  /** The string a template literal makes of a field of `data`. */
  function Field(data: Record, name: string): string
  {
    Interpolate(Get(data, name))
  }

  /** The user row is keyed `USER#id` / `USER#id`, so `getUser(user.id)`
      reads the row `createUser` wrote. */
  function UserItem(user: Record, now: string): (item: Item)
    ensures "PK" !in user && "SK" !in user ==> ItemKey(item) == Some(UserRowKey(Field(user, "id")))
  {
    Created(KeyHead(UserRowKey(Field(user, "id"))), user, now)
  }

  function TenantItem(tenant: Record, now: string): (item: Item)
    ensures "PK" !in tenant && "SK" !in tenant ==> ItemKey(item) == Some(TenantRowKey(Field(tenant, "id")))
  {
    Created(KeyHead(TenantRowKey(Field(tenant, "id"))), tenant, now)
  }

  const IndexAttrs: set<string> := {"PK", "SK", "GSI1PK", "GSI1SK"}

  /** A created row whose caller data leaves the index attributes alone
      keeps the key and index attributes of its head. */
  lemma {:induction false} CreatedIndexed(k: Key, gsi1pk: Value, gsi1sk: Value, data: Record, now: string)
    ensures var item := Created(KeyHead(k)["GSI1PK" := gsi1pk]["GSI1SK" := gsi1sk], data, now);
      (forall a | a in IndexAttrs :: a !in data) ==>
      ItemKey(item) == Some(k) && Get(item, "GSI1PK") == gsi1pk && Get(item, "GSI1SK") == gsi1sk
  {
    var head := KeyHead(k)["GSI1PK" := gsi1pk]["GSI1SK" := gsi1sk];
    assert "PK" in IndexAttrs && "SK" in IndexAttrs && "GSI1PK" in IndexAttrs && "GSI1SK" in IndexAttrs;
    assert "PK" !in StampAttrs && "SK" !in StampAttrs && "GSI1PK" !in StampAttrs && "GSI1SK" !in StampAttrs;
    assert head["PK"] == Str(k.pk) && head["SK"] == Str(k.sk) && head["GSI1PK"] == gsi1pk && head["GSI1SK"] == gsi1sk;
  }

  /** A project row: under its tenant, and on GSI1 under its creator with
      the index sort key `PROJECT#id`. */
  function ProjectItem(project: Record, now: string): (item: Item)
    ensures (forall a | a in IndexAttrs :: a !in project) ==>
      ItemKey(item) == Some(ProjectRowKey(Field(project, "tenantId"), Field(project, "id")))
      && Get(item, "GSI1PK") == Str(UserPk(Field(project, "createdBy")))
      && Get(item, "GSI1SK") == Str(ProjectSk(Field(project, "id")))
  {
    var k := ProjectRowKey(Field(project, "tenantId"), Field(project, "id"));
    CreatedIndexed(k, Str(UserPk(Field(project, "createdBy"))), Str(ProjectSk(Field(project, "id"))), project, now);
    Created(KeyHead(k)["GSI1PK" := Str(UserPk(Field(project, "createdBy")))]["GSI1SK" := Str(ProjectSk(Field(project, "id")))],
      project, now)
  }

  /** The assignee list of a task; the task type makes it an array. */
  predicate HasAssignees(task: Record)
  {
    Get(task, "assignees").List?
  }

  /** `GSI1PK`: `ASSIGNEE#` and the first assignee when there is one,
      otherwise `undefined`. */
  function AssigneeIndexPk(task: Record): Value
    requires HasAssignees(task)
  {
    var assignees := Get(task, "assignees").items;
    if |assignees| > 0 then Str(AssigneeGsi1Pk(Interpolate(assignees[0]))) else Undefined
  }

  /** `GSI1SK`: `DUE#d#p#t#s` when the due date is truthy, otherwise
      `undefined`. */
  function DueIndexSk(task: Record): Value
  {
    if Truthy(Get(task, "dueDate")) then
      Str(DueGsi1Sk(Field(task, "dueDate"), Field(task, "projectId"), Field(task, "targetId"), Field(task, "stageId")))
    else Undefined
  }

  /** A task row: the matrix cell is the partition, the stage the sort
      key. */
  function TaskItem(task: Record, now: string): (item: Item)
    requires HasAssignees(task)
    ensures (forall a | a in IndexAttrs :: a !in task) ==>
      ItemKey(item) == Some(TaskRowKey(Field(task, "projectId"), Field(task, "targetId"), Field(task, "stageId")))
      && (Get(item, "GSI1PK").Str? <==> |Get(task, "assignees").items| > 0)
      && (Get(item, "GSI1SK").Str? <==> Truthy(Get(task, "dueDate")))
  {
    var k := TaskRowKey(Field(task, "projectId"), Field(task, "targetId"), Field(task, "stageId"));
    CreatedIndexed(k, AssigneeIndexPk(task), DueIndexSk(task), task, now);
    Created(KeyHead(k)["GSI1PK" := AssigneeIndexPk(task)]["GSI1SK" := DueIndexSk(task)], task, now)
  }

  // ---------------------------------------------------------------------
  // Entity services

  /** `putItem` of a created item, resolving to the item, key attributes
      included. */
  method PutCreated(t: Table, item: Item) returns (r: Result<Item>)
    requires t.Valid()
    requires ItemKey(item).Some? && ValidKey(ItemKey(item).value)
    modifies t
    ensures t.Valid()
    ensures r.Ok? <==> Marshallable(item)
    ensures r.Ok? ==> r.value == item && t.rows == old(t.rows)[ItemKey(item).value := item]
    ensures r.Thrown? ==> r.message == UndefinedMessage && t.rows == old(t.rows)
  {
    r := t.PutItem(item);
    if r.Thrown? {
      r := Thrown(UndefinedMessage);
    }
  }

  /** A key built by tagging is never empty. */
  lemma {:induction false} TaggedKeysValid(a: string, b: string, c: string)
    ensures ValidKey(UserRowKey(a)) && ValidKey(TenantRowKey(a))
    ensures ValidKey(ProjectRowKey(a, b)) && ValidKey(TaskRowKey(a, b, c))
  {
    assert |UserPk(a)| >= 5 && |TenantKey(a)| >= 7 && |ProjectSk(b)| >= 8;
    assert |CellPk(a, b)| >= 8 && |TaskSk(c)| >= 5;
  }

  class UserService {
    static method CreateUser(t: Table, user: Record, now: string) returns (r: Result<Item>)
      requires t.Valid() && "PK" !in user && "SK" !in user
      modifies t
      ensures t.Valid()
      ensures r.Ok? <==> Marshallable(Without(user, StampAttrs))
      ensures r.Ok? ==> (r.value == UserItem(user, now)
        && t.rows == old(t.rows)[UserRowKey(Field(user, "id")) := r.value])
      ensures r.Thrown? ==> t.rows == old(t.rows)
    {
      var item := UserItem(user, now);
      TaggedKeysValid(Field(user, "id"), "", "");
      CreatedMarshallable(KeyHead(UserRowKey(Field(user, "id"))), user, now);
      r := PutCreated(t, item);
    }

    /** `item as User || null`: the stored item, or null. */
    static method GetUser(t: Table, userId: string) returns (r: Result<Option<Item>>)
      requires t.Valid()
      ensures r == Ok(if UserRowKey(userId) in t.rows then Some(t.rows[UserRowKey(userId)]) else None)
    {
      TaggedKeysValid(userId, "", "");
      r := DynamoDBService.GetItem(t, UserPk(userId), UserPk(userId));
    }

    /** `updateItem(key, key, { ...updates, updatedAt: now })`: a supplied
        `updatedAt` is replaced in place, so the stamp always wins and no
        name is sent twice. */
    static method UpdateUser(t: Table, userId: string, updates: seq<Entry>, now: string) returns (r: Result<Item>)
      requires t.Valid() && DistinctNames(updates)
      modifies t
      ensures t.Valid()
      ensures r.Ok? <==> ("PK" !in EntriesMap(updates) && "SK" !in EntriesMap(updates)
        && Marshallable(EntriesMap(updates)["updatedAt" := Str(now)]))
      ensures r.Ok? ==> (r.value == Base(old(t.rows), UserRowKey(userId)) + EntriesMap(updates)["updatedAt" := Str(now)]
        && t.rows == old(t.rows)[UserRowKey(userId) := r.value])
      ensures r.Thrown? ==> t.rows == old(t.rows)
    {
      var es := Assign(updates, "updatedAt", Str(now));
      AssignEntries(updates, "updatedAt", Str(now));
      EntriesMapDefined(es);
      TaggedKeysValid(userId, "", "");
      r := DynamoDBService.UpdateItem(t, UserPk(userId), UserPk(userId), es);
    }
  }

  class TenantService {
    static method CreateTenant(t: Table, tenant: Record, now: string) returns (r: Result<Item>)
      requires t.Valid() && "PK" !in tenant && "SK" !in tenant
      modifies t
      ensures t.Valid()
      ensures r.Ok? <==> Marshallable(Without(tenant, StampAttrs))
      ensures r.Ok? ==> (r.value == TenantItem(tenant, now)
        && t.rows == old(t.rows)[TenantRowKey(Field(tenant, "id")) := r.value])
      ensures r.Thrown? ==> t.rows == old(t.rows)
    {
      var item := TenantItem(tenant, now);
      TaggedKeysValid(Field(tenant, "id"), "", "");
      CreatedMarshallable(KeyHead(TenantRowKey(Field(tenant, "id"))), tenant, now);
      r := PutCreated(t, item);
    }

    static method GetTenant(t: Table, tenantId: string) returns (r: Result<Option<Item>>)
      requires t.Valid()
      ensures r == Ok(if TenantRowKey(tenantId) in t.rows then Some(t.rows[TenantRowKey(tenantId)]) else None)
    {
      TaggedKeysValid(tenantId, "", "");
      r := DynamoDBService.GetItem(t, TenantKey(tenantId), TenantKey(tenantId));
    }
  }

  class ProjectService {
    static method CreateProject(t: Table, project: Record, now: string) returns (r: Result<Item>)
      requires t.Valid() && forall a | a in IndexAttrs :: a !in project
      modifies t
      ensures t.Valid()
      ensures r.Ok? <==> Marshallable(Without(project, StampAttrs))
      ensures r.Ok? ==> (r.value == ProjectItem(project, now)
        && t.rows == old(t.rows)[ProjectRowKey(Field(project, "tenantId"), Field(project, "id")) := r.value])
      ensures r.Thrown? ==> t.rows == old(t.rows)
    {
      var item := ProjectItem(project, now);
      var k := ProjectRowKey(Field(project, "tenantId"), Field(project, "id"));
      TaggedKeysValid(Field(project, "tenantId"), Field(project, "id"), "");
      CreatedMarshallable(KeyHead(k)["GSI1PK" := Str(UserPk(Field(project, "createdBy")))]["GSI1SK" := Str(ProjectSk(Field(project, "id")))],
        project, now);
      r := PutCreated(t, item);
    }

    static method GetProject(t: Table, tenantId: string, projectId: string) returns (r: Result<Option<Item>>)
      requires t.Valid()
      ensures r == Ok(if ProjectRowKey(tenantId, projectId) in t.rows then Some(t.rows[ProjectRowKey(tenantId, projectId)]) else None)
    {
      TaggedKeysValid(tenantId, projectId, "");
      r := DynamoDBService.GetItem(t, TenantKey(tenantId), ProjectSk(projectId));
    }

    /** GSI1 rows of the user whose GSI1SK is exactly `PROJECT#`. */
    static method GetUserProjects(t: Table, userId: string) returns (r: Result<seq<Item>>)
      requires t.Valid()
      ensures r.Ok? && Lists(r.value, Matching(t.rows, IndexQuery("GSI1", UserPk(userId), Some("PROJECT#"), None)), None)
      ensures forall k :: k in Matching(t.rows, IndexQuery("GSI1", UserPk(userId), Some("PROJECT#"), None)) <==>
        k in t.rows && Get(t.rows[k], "GSI1PK") == Str(UserPk(userId)) && Get(t.rows[k], "GSI1SK") == Str("PROJECT#")
    {
      r := DynamoDBService.QueryGsi(t, "GSI1", UserPk(userId), Some("PROJECT#"), None);
    }

    /** The rows of the tenant's partition whose sort key starts
        `PROJECT#`; the tenant's own row is not among them. */
    static method GetTenantProjects(t: Table, tenantId: string) returns (r: Result<seq<Item>>)
      requires t.Valid()
      ensures r.Ok? && Lists(r.value, Matching(t.rows, PartitionQuery(TenantKey(tenantId), Some("PROJECT#"), None)), None)
      ensures forall k :: k in Matching(t.rows, PartitionQuery(TenantKey(tenantId), Some("PROJECT#"), None)) <==>
        k in t.rows && k.pk == TenantKey(tenantId) && StartsWith(k.sk, "PROJECT#")
      ensures TenantRowKey(tenantId) !in Matching(t.rows, PartitionQuery(TenantKey(tenantId), Some("PROJECT#"), None))
    {
      TaggedRecover("TENANT#", tenantId);
      StartsWithDisjoint(TenantKey(tenantId), "TENANT#", "PROJECT#", 0);
      r := DynamoDBService.Query(t, TenantKey(tenantId), Some("PROJECT#"), None);
    }
  }

  /** A project created under a non-empty id is never selected by the
      query `getUserProjects` sends for its creator: its GSI1SK is
      `PROJECT#id`, and the query asks for `PROJECT#` exactly. */
  lemma {:induction false} UserProjectsMissCreated(project: Record, now: string)
    requires forall a | a in IndexAttrs :: a !in project
    requires Field(project, "id") != ""
    ensures !Matches(ProjectItem(project, now), IndexQuery("GSI1", UserPk(Field(project, "createdBy")), Some("PROJECT#"), None))
  {
    var id := Field(project, "id");
    assert |ProjectSk(id)| > |"PROJECT#"|;
  }

  /** The query `getUserProjects` evidently means: GSI1SK starting with
      `PROJECT#`. */
  function UserProjectsQuery(userId: string): (q: QueryRequest)
    ensures QueryResolves(q) && Marshallable(q.values)
  {
    QueryRequest(Some("GSI1"), KeyCondition("GSI1PK", ":pk", BeginsWith("GSI1SK", ":sk")),
      map[":pk" := Str(UserPk(userId)), ":sk" := Str("PROJECT#")], None)
  }

  /** Every project a user created is selected by the prefix query, and
      that query selects only index rows of the user under `PROJECT#`. */
  lemma {:induction false} UserProjectsQueryFindsCreated(project: Record, now: string, rows: map<Key, Item>, userId: string)
    requires forall a | a in IndexAttrs :: a !in project
    ensures Matches(ProjectItem(project, now), UserProjectsQuery(Field(project, "createdBy")))
    ensures forall k :: k in Matching(rows, UserProjectsQuery(userId)) <==>
      k in rows && Get(rows[k], "GSI1PK") == Str(UserPk(userId))
      && Get(rows[k], "GSI1SK").Str? && StartsWith(Get(rows[k], "GSI1SK").s, "PROJECT#")
  {
    StartsWithConcat("PROJECT#", Field(project, "id"));
  }

  class TaskService {
    /** Throws on the client, before anything is written, unless the task
        has an assignee and a due date: otherwise GSI1PK or GSI1SK is
        `undefined`. */
    static method CreateTask(t: Table, task: Record, now: string) returns (r: Result<Item>)
      requires t.Valid() && HasAssignees(task) && forall a | a in IndexAttrs :: a !in task
      modifies t
      ensures t.Valid()
      ensures r.Ok? <==> (|Get(task, "assignees").items| > 0 && Truthy(Get(task, "dueDate"))
        && Marshallable(Without(task, StampAttrs)))
      ensures r.Ok? ==> (r.value == TaskItem(task, now)
        && t.rows == old(t.rows)[TaskRowKey(Field(task, "projectId"), Field(task, "targetId"), Field(task, "stageId")) := r.value])
      ensures r.Thrown? ==> t.rows == old(t.rows)
    {
      var item := TaskItem(task, now);
      TaggedKeysValid(Field(task, "projectId"), Field(task, "targetId"), Field(task, "stageId"));
      TaskItemSendable(task, now);
      r := PutCreated(t, item);
    }

    static method GetTask(t: Table, projectId: string, targetId: string, stageId: string) returns (r: Result<Option<Item>>)
      requires t.Valid()
      ensures r == Ok(if TaskRowKey(projectId, targetId, stageId) in t.rows
        then Some(t.rows[TaskRowKey(projectId, targetId, stageId)]) else None)
    {
      TaggedKeysValid(projectId, targetId, stageId);
      r := DynamoDBService.GetItem(t, CellPk(projectId, targetId), TaskSk(stageId));
    }

    /** Reads the `TARGET#` rows of partition `PROJECT#p` and keeps those
        whose SK starts `TASK#`; no string starts with both, so the list is
        always empty. */
    static method GetProjectTasks(t: Table, projectId: string) returns (r: Result<seq<Item>>)
      requires t.Valid()
      ensures r == Ok([])
    {
      var res := DynamoDBService.Query(t, ProjectPk(projectId), Some("TARGET#"), None);
      var items := res.value;
      var m := Matching(t.rows, PartitionQuery(ProjectPk(projectId), Some("TARGET#"), None));
      forall i | 0 <= i < |items| ensures !IsTaskRow(items[i]) {
        var k := ItemKey(items[i]).value;
        assert k in m && m[k] == items[i];
        StartsWithDisjoint(k.sk, "TARGET#", "TASK#", 4);
        assert Get(items[i], "SK") == Str(k.sk);
      }
      FilterNone(items, IsTaskRow);
      r := Ok(Filter(items, IsTaskRow));
    }

    /** GSI1 rows under `ASSIGNEE#u`: tasks whose first assignee is `u`. */
    static method GetUserTasks(t: Table, userId: string) returns (r: Result<seq<Item>>)
      requires t.Valid()
      ensures r.Ok? && Lists(r.value, Matching(t.rows, IndexQuery("GSI1", AssigneeGsi1Pk(userId), None, None)), None)
      ensures forall k :: k in Matching(t.rows, IndexQuery("GSI1", AssigneeGsi1Pk(userId), None, None)) <==>
        k in t.rows && Get(t.rows[k], "GSI1PK") == Str(AssigneeGsi1Pk(userId))
    {
      r := DynamoDBService.QueryGsi(t, "GSI1", AssigneeGsi1Pk(userId), None, None);
    }
  }

  /** `item.SK?.startsWith('TASK#')`. */
  predicate IsTaskRow(item: Item)
  {
    Get(item, "SK").Str? && StartsWith(Get(item, "SK").s, "TASK#")
  }

  /** A task row can be sent exactly when the task has an assignee, a
      truthy due date, and no `undefined` among its own fields. */
  lemma {:induction false} TaskItemSendable(task: Record, now: string)
    requires HasAssignees(task) && forall a | a in IndexAttrs :: a !in task
    ensures Marshallable(TaskItem(task, now)) <==>
      |Get(task, "assignees").items| > 0 && Truthy(Get(task, "dueDate")) && Marshallable(Without(task, StampAttrs))
  {
    var k := TaskRowKey(Field(task, "projectId"), Field(task, "targetId"), Field(task, "stageId"));
    var head := KeyHead(k)["GSI1PK" := AssigneeIndexPk(task)]["GSI1SK" := DueIndexSk(task)];
    CreatedMarshallable(head, task, now);
    TaskHeadDefined(task, head, k);
  }

  lemma {:induction false} TaskHeadDefined(task: Record, head: Record, k: Key)
    requires HasAssignees(task) && forall a | a in IndexAttrs :: a !in task
    requires head == KeyHead(k)["GSI1PK" := AssigneeIndexPk(task)]["GSI1SK" := DueIndexSk(task)]
    ensures (forall a | a in head && a !in task && a !in StampAttrs :: Defined(head[a])) <==>
      |Get(task, "assignees").items| > 0 && Truthy(Get(task, "dueDate"))
  {
    assert Defined(AssigneeIndexPk(task)) <==> |Get(task, "assignees").items| > 0;
    assert Defined(DueIndexSk(task)) <==> Truthy(Get(task, "dueDate"));
    assert head.Keys == IndexAttrs;
    assert head["PK"] == Str(k.pk) && head["SK"] == Str(k.sk);
    assert head["GSI1PK"] == AssigneeIndexPk(task) && head["GSI1SK"] == DueIndexSk(task);
    assert "GSI1PK" in head && "GSI1PK" !in task && "GSI1PK" !in StampAttrs;
    assert "GSI1SK" in head && "GSI1SK" !in task && "GSI1SK" !in StampAttrs;
  }

  /** A task without an assignee, or without a due date, can never be
      written: its item holds `undefined`. */
  lemma {:induction false} TaskItemUnsendable(task: Record, now: string)
    requires HasAssignees(task) && forall a | a in IndexAttrs :: a !in task
    requires |Get(task, "assignees").items| == 0 || !Truthy(Get(task, "dueDate"))
    ensures !Marshallable(TaskItem(task, now))
  {
    var item := TaskItem(task, now);
    if |Get(task, "assignees").items| == 0 {
      assert item["GSI1PK"] == Undefined;
    } else {
      assert item["GSI1SK"] == Undefined;
    }
  }

  /** The task row evidently meant: the index attributes are left out when
      they have no value, so the row stays off the index. */
  function SparseTaskItem(task: Record, now: string): (item: Item)
    requires HasAssignees(task)
  {
    var item := TaskItem(task, now);
    map a | a in item && (a in IndexAttrs - KeyAttrs ==> item[a] != Undefined) :: item[a]
  }

  /** The sparse row is sendable exactly when the caller's fields are, it
      is keyed like the written row, and it carries GSI1PK exactly when the
      task has an assignee, under the first one. */
  lemma {:induction false} SparseTaskItemSendable(task: Record, now: string)
    requires HasAssignees(task) && forall a | a in IndexAttrs :: a !in task
    ensures Marshallable(SparseTaskItem(task, now)) <==> Marshallable(Without(task, StampAttrs))
    ensures ItemKey(SparseTaskItem(task, now)) == ItemKey(TaskItem(task, now))
    ensures "GSI1PK" in SparseTaskItem(task, now) <==> |Get(task, "assignees").items| > 0
    ensures "GSI1SK" in SparseTaskItem(task, now) <==> Truthy(Get(task, "dueDate"))
  {
    var item := TaskItem(task, now);
    var sparse := SparseTaskItem(task, now);
    if Marshallable(Without(task, StampAttrs)) {
      forall a | a in sparse ensures Defined(sparse[a]) {
        if a !in task || a in StampAttrs {
          assert a in IndexAttrs || a in StampAttrs;
        } else {
          assert a in Without(task, StampAttrs);
        }
      }
    }
    if Marshallable(sparse) {
      forall a | a in Without(task, StampAttrs) ensures Defined(Without(task, StampAttrs)[a]) {
        assert a in sparse && sparse[a] == task[a];
      }
    }
    assert sparse["PK"] == item["PK"] && sparse["SK"] == item["SK"];
  }

  /** A task lives in partition `PROJECT#p#TARGET#t`, never in `PROJECT#p`
      when the project id holds no '#': the query `getProjectTasks` sends
      cannot reach it even before its filter. */
  lemma {:induction false} ProjectTasksMissCreated(task: Record, now: string)
    requires HasAssignees(task) && forall a | a in IndexAttrs :: a !in task
    requires NoHash(Field(task, "projectId"))
    ensures !Matches(TaskItem(task, now), PartitionQuery(ProjectPk(Field(task, "projectId")), Some("TARGET#"), None))
  {
    CellPkNotProjectPk(Field(task, "projectId"), Field(task, "targetId"), Field(task, "projectId"));
  }

  /** The queries `getProjectTasks` evidently means: one per target of the
      project, over that cell's partition, sort keys starting `TASK#`. */
  function ProjectTaskQueries(projectId: string, targetIds: seq<string>): (qs: seq<QueryRequest>)
    ensures |qs| == |targetIds|
  {
    seq(|targetIds|, i requires 0 <= i < |targetIds| => PartitionQuery(CellPk(projectId, targetIds[i]), Some("TASK#"), None))
  }

  /** Every task written for one of the targets is selected by that
      target's query, and each query selects only task rows of its cell. */
  lemma {:induction false} ProjectTaskQueriesFind(task: Record, now: string, targetIds: seq<string>, i: int, rows: map<Key, Item>)
    requires HasAssignees(task) && forall a | a in IndexAttrs :: a !in task
    requires 0 <= i < |targetIds| && targetIds[i] == Field(task, "targetId")
    requires WellKeyed(rows)
    ensures Matches(TaskItem(task, now), ProjectTaskQueries(Field(task, "projectId"), targetIds)[i])
    ensures forall k :: k in Matching(rows, ProjectTaskQueries(Field(task, "projectId"), targetIds)[i]) <==>
      k in rows && k.pk == CellPk(Field(task, "projectId"), targetIds[i]) && StartsWith(k.sk, "TASK#")
  {
    StartsWithConcat("TASK#", Field(task, "stageId"));
    PartitionQueryRows(rows, CellPk(Field(task, "projectId"), targetIds[i]), Some("TASK#"), None);
  }

  /** A task with an assignee is on its first assignee's index partition. */
  lemma {:induction false} UserTasksFindAssigned(task: Record, now: string)
    requires HasAssignees(task) && forall a | a in IndexAttrs :: a !in task
    requires |Get(task, "assignees").items| > 0
    ensures Matches(TaskItem(task, now),
      IndexQuery("GSI1", AssigneeGsi1Pk(Interpolate(Get(task, "assignees").items[0])), None, None))
  {
  }
}
