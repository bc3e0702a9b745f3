/** The services of src/lib/database.ts over the shared table: users under
    `USER#id` / `PROFILE`, projects under `PROJECT#id` / `METADATA`, and
    their tasks and members as children of the project partition. The
    clock and the id generator are parameters (`now`, `id`). */
module Database {
  import opened Js
  import opened Keys
  import opened Store

  // ---------------------------------------------------------------------
  // Keys

  function UserKey(userId: string): Key { Key(UserPk(userId), ProfileSk) }
  function ProjectKey(projectId: string): Key { Key(ProjectPk(projectId), MetadataSk) }
  function TaskKey(projectId: string, taskId: string): Key { Key(ProjectPk(projectId), TaskSk(taskId)) }
  function MemberKey(projectId: string, userId: string): Key { Key(ProjectPk(projectId), MemberSk(userId)) }

  /** Every key the services build is a valid key, each is determined by
      its ids, and keys of different kinds never collide. */
  lemma {:induction false} ServiceKeys(a: string, b: string, c: string, d: string)
    ensures ValidKey(UserKey(a)) && ValidKey(ProjectKey(a)) && ValidKey(TaskKey(a, b)) && ValidKey(MemberKey(a, b))
    ensures UserKey(a) == UserKey(b) <==> a == b
    ensures ProjectKey(a) == ProjectKey(b) <==> a == b
    ensures TaskKey(a, b) == TaskKey(c, d) <==> a == c && b == d
    ensures MemberKey(a, b) == MemberKey(c, d) <==> a == c && b == d
    ensures UserKey(a) != ProjectKey(b) && UserKey(a) != TaskKey(b, c) && UserKey(a) != MemberKey(b, c)
    ensures ProjectKey(a) != TaskKey(b, c) && ProjectKey(a) != MemberKey(b, c) && TaskKey(a, b) != MemberKey(c, d)
  {
    TaggedInjective("USER#", a, b);
    TaggedInjective("PROJECT#", a, b);
    TaggedInjective("PROJECT#", a, c);
    TaggedInjective("TASK#", b, d);
    TaggedInjective("MEMBER#", b, d);
    assert UserPk(a)[0] == 'U' && ProjectPk(b)[0] == 'P';
    assert TaskSk(b)[0] == 'T' && MemberSk(b)[0] == 'M' && TaskSk(a)[0] == 'T';
    assert MetadataSk[2] == 'T' && MemberSk(b)[2] == 'M';
  }

  // ---------------------------------------------------------------------
  // Records

  /** `{ ...data, id, createdAt: now, updatedAt: now }`; the two clock
      reads are taken as one instant. */
  function Stamped(data: Record, id: string, now: string): (r: Record)
    ensures r.Keys == data.Keys + {"id", "createdAt", "updatedAt"}
    ensures r["id"] == Str(id) && r["createdAt"] == Str(now) && r["updatedAt"] == Str(now)
    ensures forall k | k in data && k != "id" && k != "createdAt" && k != "updatedAt" :: r[k] == data[k]
  {
    data + map["id" := Str(id), "createdAt" := Str(now), "updatedAt" := Str(now)]
  }

  /** What a `getById` returns for a key: the row with PK and SK removed. */
  function Stored(rows: map<Key, Item>, k: Key): Option<Record>
  {
    if k in rows then Some(Without(rows[k], KeyAttrs)) else None
  }

  /** A record written under a key is what a later read of that key
      returns, and reads of every other key are unaffected. */
  lemma {:induction false} CreateThenGet(rows: map<Key, Item>, k: Key, record: Record)
    requires "PK" !in record && "SK" !in record
    ensures Stored(rows[k := WithKey(k, record)], k) == Some(record)
    ensures forall k' | k' != k :: Stored(rows[k := WithKey(k, record)], k') == Stored(rows, k')
  {
    WithoutWithKey(k, record);
  }

  /** `PutCommand` of `{ PK, SK, ...record }`, resolving to the record. */
  method PutRecord(t: Table, k: Key, record: Record) returns (r: Result<Record>)
    requires t.Valid() && ValidKey(k)
    modifies t
    ensures t.Valid()
    ensures "PK" !in record && "SK" !in record ==> (r.Ok? <==> Marshallable(record))
    ensures "PK" !in record && "SK" !in record && r.Ok? ==> t.rows == old(t.rows)[k := WithKey(k, record)]
    ensures r.Ok? ==> r.value == record
    ensures r.Thrown? ==> t.rows == old(t.rows)
  {
    assert "PK" !in record && "SK" !in record ==> (Marshallable(WithKey(k, record)) <==> Marshallable(record));
    var res := t.PutItem(WithKey(k, record));
    if res.Thrown? {
      return Thrown(res.message);
    }
    r := Ok(record);
  }

  /** `GetCommand` followed by `const { PK, SK, ...rest } = result.Item`. */
  method Fetch(t: Table, k: Key) returns (r: Result<Option<Record>>)
    requires t.Valid() && ValidKey(k)
    ensures r == Ok(Stored(t.rows, k))
  {
    var res := t.GetItem(k);
    if res.value.None? {
      return Ok(None);
    }
    r := Ok(Some(Without(res.value.value, KeyAttrs)));
  }

  // ---------------------------------------------------------------------
  // The update builder shared by the three `update` methods

  /** The entries the builder turns into clauses: those whose name is not
      excluded, in order. */
  function Kept(es: seq<Entry>, excluded: set<string>): seq<Entry>
  {
    if es == [] then []
    else
      var e := es[|es| - 1];
      Kept(es[..|es| - 1], excluded) + (if e.0 in excluded then [] else [e])
  }

  /** The `#updatedAt = :updatedAt` entry appended after the loop. */
  function Stamp(now: string): Entry
  {
    ("updatedAt", Str(now))
  }

  /** All entries of the request an `update` sends. */
  function UpdateEntries(updates: seq<Entry>, excluded: set<string>, now: string): seq<Entry>
  {
    Kept(updates, excluded) + [Stamp(now)]
  }

  /** Loops over `Object.entries(updates)`, pushing `#k = :k` and binding
      `#k` and `:k` for every key not excluded, then appends the
      `updatedAt` clause. */
  method BuildUpdate(updates: seq<Entry>, excluded: set<string>, now: string)
    returns (cs: seq<SetClause>, names: map<string, string>, values: map<string, Value>)
    ensures cs == EntryClauses(UpdateEntries(updates, excluded, now))
    ensures names == EntryNames(UpdateEntries(updates, excluded, now))
    ensures values == EntryValues(UpdateEntries(updates, excluded, now))
  {
    cs, names, values := [], map[], map[];
    for i := 0 to |updates|
      invariant cs == EntryClauses(Kept(updates[..i], excluded))
      invariant names == EntryNames(Kept(updates[..i], excluded))
      invariant values == EntryValues(Kept(updates[..i], excluded))
    {
      var (key, value) := updates[i];
      ghost var before := Kept(updates[..i], excluded);
      KeptSnoc(updates[..i], updates[i], excluded);
      assert updates[..i + 1] == updates[..i] + [updates[i]];
      if key !in excluded {
        EntrySnoc(before, (key, value));
        assert Kept(updates[..i + 1], excluded) == before + [(key, value)];
        cs := cs + [EntryClause(key)];
        names := names["#" + key := key];
        values := values[":" + key := value];
      } else {
        assert Kept(updates[..i + 1], excluded) == before;
      }
    }
    assert updates[..|updates|] == updates;
    StampSnoc(Kept(updates, excluded), now);
    cs := cs + [SetClause("#updatedAt", ":updatedAt")];
    names := names["#updatedAt" := "updatedAt"];
    values := values[":updatedAt" := Str(now)];
  }

  /** Appending the `updatedAt` entry appends its clause and binds
      `#updatedAt` and `:updatedAt`. */
  lemma {:induction false} StampSnoc(es: seq<Entry>, now: string)
    ensures EntryClauses(es + [Stamp(now)]) == EntryClauses(es) + [SetClause("#updatedAt", ":updatedAt")]
    ensures EntryNames(es + [Stamp(now)]) == EntryNames(es)["#updatedAt" := "updatedAt"]
    ensures EntryValues(es + [Stamp(now)]) == EntryValues(es)[":updatedAt" := Str(now)]
  {
    EntrySnoc(es, Stamp(now));
    assert "#" + "updatedAt" == "#updatedAt" && ":" + "updatedAt" == ":updatedAt";
  }

  /** Filtering an array extended by one entry. */
  lemma {:induction false} KeptSnoc(es: seq<Entry>, e: Entry, excluded: set<string>)
    ensures Kept(es + [e], excluded) == Kept(es, excluded) + (if e.0 in excluded then [] else [e])
  {
    assert (es + [e])[..|es|] == es;
  }

  /** The kept entries are entries of the input with a name that is not
      excluded, and every such entry is kept. */
  lemma {:induction false} KeptAt(es: seq<Entry>, excluded: set<string>)
    ensures forall i | 0 <= i < |Kept(es, excluded)| ::
      Kept(es, excluded)[i] in es && Kept(es, excluded)[i].0 !in excluded
    ensures forall i | 0 <= i < |es| && es[i].0 !in excluded :: es[i] in Kept(es, excluded)
  {
    if es != [] {
      var init := es[..|es| - 1];
      var e := es[|es| - 1];
      KeptAt(init, excluded);
      assert es == init + [e];
      KeptSnoc(init, e, excluded);
      assert forall i | 0 <= i < |init| :: init[i] == es[i];
    }
  }

  /** Dropping entries keeps the names pairwise different. */
  lemma {:induction false} KeptDistinct(es: seq<Entry>, excluded: set<string>)
    requires DistinctNames(es)
    ensures DistinctNames(Kept(es, excluded))
  {
    if es != [] {
      var init := es[..|es| - 1];
      var e := es[|es| - 1];
      assert DistinctNames(init);
      KeptDistinct(init, excluded);
      KeptAt(init, excluded);
      assert es == init + [e];
      KeptSnoc(init, e, excluded);
      var k := Kept(init, excluded);
      forall i | 0 <= i < |k| ensures k[i].0 != e.0 {
        var j :| 0 <= j < |init| && init[j] == k[i];
        assert es[j] == k[i];
      }
    }
  }

  /** The object the kept entries describe is the object of all entries
      without the excluded names. */
  lemma {:induction false} KeptMap(es: seq<Entry>, excluded: set<string>)
    ensures EntriesMap(Kept(es, excluded)) == Without(EntriesMap(es), excluded)
  {
    if es != [] {
      var init := es[..|es| - 1];
      var e := es[|es| - 1];
      KeptMap(init, excluded);
      assert es == init + [e];
      KeptSnoc(init, e, excluded);
      var k := Kept(init, excluded);
      EntrySnoc(init, e);
      WithoutAssign(EntriesMap(init), e.0, e.1, excluded);
      if e.0 !in excluded {
        EntrySnoc(k, e);
        assert Kept(es, excluded) == k + [e];
        assert EntriesMap(Kept(es, excluded)) == EntriesMap(k)[e.0 := e.1];
      } else {
        assert Kept(es, excluded) == k;
      }
      assert EntriesMap(es) == EntriesMap(init)[e.0 := e.1];
    } else {
      assert Without(EntriesMap(es), excluded) == map[];
    }
  }

  /** Removing attributes from a record after assigning one. */
  lemma {:induction false} WithoutAssign(m: Record, a: string, v: Value, excluded: set<string>)
    ensures a in excluded ==> Without(m[a := v], excluded) == Without(m, excluded)
    ensures a !in excluded ==> Without(m[a := v], excluded) == Without(m, excluded)[a := v]
  {
    var lhs := Without(m[a := v], excluded);
    if a in excluded {
      assert lhs.Keys == Without(m, excluded).Keys;
    } else {
      assert lhs.Keys == Without(m, excluded)[a := v].Keys;
    }
  }

  /** The row an `update` leaves: the base row, overlaid with the supplied
      fields that are not excluded, and `updatedAt` re-stamped. */
  function Patched(base: Item, updates: seq<Entry>, excluded: set<string>, now: string): Item
  {
    base + Without(EntriesMap(updates), excluded)["updatedAt" := Str(now)]
  }

  /** Only supplied fields change: each supplied, non-excluded field takes
      its new value, `updatedAt` takes `now`, and every other attribute of
      the base row keeps its value; nothing else is added. */
  lemma {:induction false} PatchedAt(base: Item, updates: seq<Entry>, excluded: set<string>, now: string)
    requires DistinctNames(updates)
    ensures Patched(base, updates, excluded, now).Keys ==
      base.Keys + (EntriesMap(updates).Keys - excluded) + {"updatedAt"}
    ensures Patched(base, updates, excluded, now)["updatedAt"] == Str(now)
    ensures forall i | 0 <= i < |updates| && updates[i].0 !in excluded && updates[i].0 != "updatedAt" ::
      updates[i].0 in Patched(base, updates, excluded, now) && Patched(base, updates, excluded, now)[updates[i].0] == updates[i].1
    ensures forall a | a in base && a != "updatedAt" && (a in excluded || a !in EntriesMap(updates)) ::
      Patched(base, updates, excluded, now)[a] == base[a]
  {
    EntriesMapAt(updates);
  }

  /** DynamoDB accepts the request an `update` builds exactly when the
      caller supplied none of `updatedAt`, PK and SK (a supplied
      `updatedAt` yields a second `#updatedAt` clause, so two paths
      overlap); the row it leaves is then the patched base row. */
  lemma {:induction false} StampedUpdate(rows: map<Key, Item>, key: Key, updates: seq<Entry>, excluded: set<string>, now: string)
    requires ValidKey(key) && DistinctNames(updates)
    requires "updatedAt" !in excluded && "PK" !in excluded && "SK" !in excluded
    ensures Update(rows, EntryRequest(key, UpdateEntries(updates, excluded, now))).Ok? <==>
      "updatedAt" !in EntriesMap(updates) && "PK" !in EntriesMap(updates) && "SK" !in EntriesMap(updates)
      && Marshallable(Without(EntriesMap(updates), excluded))
    ensures Update(rows, EntryRequest(key, UpdateEntries(updates, excluded, now))).Ok? ==>
      Update(rows, EntryRequest(key, UpdateEntries(updates, excluded, now))).value
        == Patched(Base(rows, key), updates, excluded, now)
  {
    var all := UpdateEntries(updates, excluded, now);
    EntryUpdate(rows, key, all);
    StampedEntries(updates, excluded, now);
    StampedDefined(updates, excluded, now);
  }

  /** The entries an `update` sends hold no `undefined` exactly when the
      supplied fields that are not excluded hold none. */
  lemma {:induction false} StampedDefined(updates: seq<Entry>, excluded: set<string>, now: string)
    requires DistinctNames(updates)
    ensures EntriesDefined(UpdateEntries(updates, excluded, now)) <==> Marshallable(Without(EntriesMap(updates), excluded))
  {
    var kept := Kept(updates, excluded);
    var all := UpdateEntries(updates, excluded, now);
    KeptDistinct(updates, excluded);
    KeptMap(updates, excluded);
    EntriesMapDefined(kept);
    assert forall i | 0 <= i < |kept| :: all[i] == kept[i];
    assert all[|kept|].1 == Str(now);
  }

  /** The entries an `update` sends have pairwise different names exactly
      when the caller did not supply `updatedAt`, avoid the key attributes
      exactly when the caller supplied neither PK nor SK, and describe the
      supplied object without the excluded names, re-stamped. */
  lemma {:induction false} StampedEntries(updates: seq<Entry>, excluded: set<string>, now: string)
    requires DistinctNames(updates)
    requires "updatedAt" !in excluded && "PK" !in excluded && "SK" !in excluded
    ensures DistinctNames(UpdateEntries(updates, excluded, now)) <==> "updatedAt" !in EntriesMap(updates)
    ensures (forall i | 0 <= i < |UpdateEntries(updates, excluded, now)| :: UpdateEntries(updates, excluded, now)[i].0 !in KeyAttrs)
      <==> "PK" !in EntriesMap(updates) && "SK" !in EntriesMap(updates)
    ensures EntriesMap(UpdateEntries(updates, excluded, now)) == Without(EntriesMap(updates), excluded)["updatedAt" := Str(now)]
  {
    var kept := Kept(updates, excluded);
    KeptMap(updates, excluded);
    KeptDistinct(updates, excluded);
    EntrySnoc(kept, Stamp(now));
    StampedDistinct(kept, now);
    StampedAvoidsKey(kept, now);
    KeptHas(updates, excluded, "updatedAt");
    KeptHas(updates, excluded, "PK");
    KeptHas(updates, excluded, "SK");
  }

  /** A name that is not excluded is among the kept entries exactly when
      the caller supplied it. */
  lemma {:induction false} KeptHas(updates: seq<Entry>, excluded: set<string>, a: string)
    requires a !in excluded
    ensures (exists i | 0 <= i < |Kept(updates, excluded)| :: Kept(updates, excluded)[i].0 == a) <==> a in EntriesMap(updates)
  {
    KeptMap(updates, excluded);
    EntriesMapAt(Kept(updates, excluded));
  }

  /** Appending `updatedAt` to entries with pairwise different names keeps
      them so exactly when `updatedAt` is not among them. */
  lemma {:induction false} StampedDistinct(kept: seq<Entry>, now: string)
    requires DistinctNames(kept)
    ensures DistinctNames(kept + [Stamp(now)]) <==> forall i | 0 <= i < |kept| :: kept[i].0 != "updatedAt"
  {
    var all := kept + [Stamp(now)];
    if !forall i | 0 <= i < |kept| :: kept[i].0 != "updatedAt" {
      var i :| 0 <= i < |kept| && kept[i].0 == "updatedAt";
      assert all[i].0 == all[|all| - 1].0;
    }
  }

  /** Appending `updatedAt` adds no key attribute. */
  lemma {:induction false} StampedAvoidsKey(kept: seq<Entry>, now: string)
    ensures (forall i | 0 <= i < |kept + [Stamp(now)]| :: (kept + [Stamp(now)])[i].0 !in KeyAttrs)
      <==> forall i | 0 <= i < |kept| :: kept[i].0 !in KeyAttrs
  {
    var all := kept + [Stamp(now)];
    assert forall i | 0 <= i < |kept| :: all[i] == kept[i];
  }

  /** The three `update` methods: build the request, send it with
      `ReturnValues: 'ALL_NEW'` and strip PK and SK from the new row. */
  method ApplyUpdate(t: Table, key: Key, updates: seq<Entry>, excluded: set<string>, now: string)
    returns (r: Result<Option<Record>>)
    requires t.Valid() && ValidKey(key) && DistinctNames(updates)
    requires "updatedAt" !in excluded && "PK" !in excluded && "SK" !in excluded
    modifies t
    ensures t.Valid()
    ensures r.Thrown? <==>
      "updatedAt" in EntriesMap(updates) || "PK" in EntriesMap(updates) || "SK" in EntriesMap(updates)
      || !Marshallable(Without(EntriesMap(updates), excluded))
    ensures r.Ok? ==>
      r.value == Some(Without(Patched(Base(old(t.rows), key), updates, excluded, now), KeyAttrs))
      && t.rows == old(t.rows)[key := Patched(Base(old(t.rows), key), updates, excluded, now)]
    ensures r.Thrown? ==> t.rows == old(t.rows)
  {
    var cs, names, values := BuildUpdate(updates, excluded, now);
    var u := UpdateRequest(key, cs, names, values);
    StampedUpdate(t.rows, key, updates, excluded, now);
    var res := t.UpdateItem(u);
    if res.Thrown? {
      return Thrown(res.message);
    }
    r := Ok(Some(Without(res.value, KeyAttrs)));
  }

  // ---------------------------------------------------------------------
  // Queries

  /** `params?.limit || 50`: an absent or zero limit becomes 50. */
  function DefaultLimit(limit: Option<int>): int
  {
    if limit.None? || limit.value == 0 then 50 else limit.value
  }

  /** The tasks of a project: partition `PROJECT#id`, sort keys starting
      `TASK#`. */
  function TaskQuery(projectId: string, limit: Option<int>): (q: QueryRequest)
    ensures QueryResolves(q) && Marshallable(q.values)
  {
    QueryRequest(None, KeyCondition("PK", ":projectId", BeginsWith("SK", ":taskPrefix")),
      map[":projectId" := Str(ProjectPk(projectId)), ":taskPrefix" := Str("TASK#")],
      Some(DefaultLimit(limit)))
  }

  /** The members of a project: partition `PROJECT#id`, sort keys starting
      `MEMBER#`. */
  function MemberQuery(projectId: string): (q: QueryRequest)
    ensures QueryResolves(q) && Marshallable(q.values)
  {
    QueryRequest(None, KeyCondition("PK", ":projectId", BeginsWith("SK", ":memberPrefix")),
      map[":projectId" := Str(ProjectPk(projectId)), ":memberPrefix" := Str("MEMBER#")], None)
  }

  /** The membership rows of a user, through GSI1. */
  function MembershipQuery(userId: string): (q: QueryRequest)
    ensures QueryResolves(q) && Marshallable(q.values)
  {
    QueryRequest(Some("GSI1"), KeyCondition("GSI1PK", ":userId", BeginsWith("GSI1SK", ":memberPrefix")),
      map[":userId" := Str(UserPk(userId)), ":memberPrefix" := Str("MEMBER#")], None)
  }

  // ---------------------------------------------------------------------
  // Services

  class UserService {
    static method Create(t: Table, userData: Record, id: string, now: string) returns (r: Result<Record>)
      requires t.Valid()
      modifies t
      ensures t.Valid()
      ensures "PK" !in userData && "SK" !in userData ==> (r.Ok? <==> Marshallable(Stamped(userData, id, now)))
      ensures "PK" !in userData && "SK" !in userData && r.Ok? ==>
        t.rows == old(t.rows)[UserKey(id) := WithKey(UserKey(id), Stamped(userData, id, now))]
      ensures r.Ok? ==> r.value == Stamped(userData, id, now)
      ensures r.Thrown? ==> t.rows == old(t.rows)
    {
      ServiceKeys(id, id, id, id);
      r := PutRecord(t, UserKey(id), Stamped(userData, id, now));
    }

    static method GetById(t: Table, userId: string) returns (r: Result<Option<Record>>)
      requires t.Valid()
      ensures r == Ok(Stored(t.rows, UserKey(userId)))
    {
      ServiceKeys(userId, userId, userId, userId);
      r := Fetch(t, UserKey(userId));
    }

    /** Never writes `id` or `createdAt`. */
    static method Update(t: Table, userId: string, updates: seq<Entry>, now: string) returns (r: Result<Option<Record>>)
      requires t.Valid() && DistinctNames(updates)
      modifies t
      ensures t.Valid()
      ensures r.Thrown? <==>
        "updatedAt" in EntriesMap(updates) || "PK" in EntriesMap(updates) || "SK" in EntriesMap(updates)
        || !Marshallable(Without(EntriesMap(updates), {"id", "createdAt"}))
      ensures r.Ok? ==>
        var row := Patched(Base(old(t.rows), UserKey(userId)), updates, {"id", "createdAt"}, now);
        r.value == Some(Without(row, KeyAttrs)) && t.rows == old(t.rows)[UserKey(userId) := row]
      ensures r.Thrown? ==> t.rows == old(t.rows)
    {
      ServiceKeys(userId, userId, userId, userId);
      r := ApplyUpdate(t, UserKey(userId), updates, {"id", "createdAt"}, now);
    }
  }

  class ProjectService {
    static method Create(t: Table, projectData: Record, id: string, now: string) returns (r: Result<Record>)
      requires t.Valid()
      modifies t
      ensures t.Valid()
      ensures "PK" !in projectData && "SK" !in projectData ==> (r.Ok? <==> Marshallable(Stamped(projectData, id, now)))
      ensures "PK" !in projectData && "SK" !in projectData && r.Ok? ==>
        t.rows == old(t.rows)[ProjectKey(id) := WithKey(ProjectKey(id), Stamped(projectData, id, now))]
      ensures r.Ok? ==> r.value == Stamped(projectData, id, now)
      ensures r.Thrown? ==> t.rows == old(t.rows)
    {
      ServiceKeys(id, id, id, id);
      r := PutRecord(t, ProjectKey(id), Stamped(projectData, id, now));
    }

    static method GetById(t: Table, projectId: string) returns (r: Result<Option<Record>>)
      requires t.Valid()
      ensures r == Ok(Stored(t.rows, ProjectKey(projectId)))
    {
      ServiceKeys(projectId, projectId, projectId, projectId);
      r := Fetch(t, ProjectKey(projectId));
    }

    /** Never writes `id` or `createdAt`. */
    static method Update(t: Table, projectId: string, updates: seq<Entry>, now: string) returns (r: Result<Option<Record>>)
      requires t.Valid() && DistinctNames(updates)
      modifies t
      ensures t.Valid()
      ensures r.Thrown? <==>
        "updatedAt" in EntriesMap(updates) || "PK" in EntriesMap(updates) || "SK" in EntriesMap(updates)
        || !Marshallable(Without(EntriesMap(updates), {"id", "createdAt"}))
      ensures r.Ok? ==>
        var row := Patched(Base(old(t.rows), ProjectKey(projectId)), updates, {"id", "createdAt"}, now);
        r.value == Some(Without(row, KeyAttrs)) && t.rows == old(t.rows)[ProjectKey(projectId) := row]
      ensures r.Thrown? ==> t.rows == old(t.rows)
    {
      ServiceKeys(projectId, projectId, projectId, projectId);
      r := ApplyUpdate(t, ProjectKey(projectId), updates, {"id", "createdAt"}, now);
    }

    /** Loops over the `projectId` of each membership row, in order, and
        collects the projects that exist. */
    static method GetByUserId(t: Table, userId: string) returns (r: Result<seq<Record>>, ghost members: seq<Item>)
      requires t.Valid()
      ensures r.Ok?
      ensures Lists(members, Matching(t.rows, MembershipQuery(userId)), None)
      ensures r.value == ProjectsOf(t.rows, ProjectIds(members))
      ensures Matching(t.rows, MembershipQuery(userId)) == map[] ==> r.value == []
    {
      var res := t.Query(MembershipQuery(userId));
      var items := res.value;
      members := items;
      ListsEmpty(items, Matching(t.rows, MembershipQuery(userId)), None);
      var ids := ProjectIds(items);
      if |ids| == 0 {
        assert ids == [];
        r := Ok([]);
        return;
      }
      var projects := CollectProjects(t, ids);
      r := Ok(projects);
    }

    /** The `for ... of` loop of `getByUserId`: each id's project, when it
        exists, appended in order. */
    static method CollectProjects(t: Table, ids: seq<Value>) returns (projects: seq<Record>)
      requires t.Valid()
      ensures projects == ProjectsOf(t.rows, ids)
    {
      projects := [];
      for i := 0 to |ids|
        invariant projects == ProjectsOf(t.rows, ids[..i])
      {
        var project := GetById(t, Interpolate(ids[i]));
        var found := project.value;
        ProjectsOfSnoc(t.rows, ids[..i], ids[i]);
        assert ids[..i + 1] == ids[..i] + [ids[i]];
        if found.Some? {
          projects := projects + [found.value];
        }
      }
      assert ids[..|ids|] == ids;
    }
  }

  /** Looking up one more id appends its project, if it exists. */
  lemma {:induction false} ProjectsOfSnoc(rows: map<Key, Item>, ids: seq<Value>, id: Value)
    ensures ProjectsOf(rows, ids + [id]) == ProjectsOf(rows, ids) +
      (if Stored(rows, ProjectKey(Interpolate(id))).Some? then [Stored(rows, ProjectKey(Interpolate(id))).value] else [])
  {
    assert (ids + [id])[..|ids|] == ids;
  }

  /** `memberResult.Items.map(item => item.projectId)`. */
  function ProjectIds(items: seq<Item>): (ids: seq<Value>)
    ensures |ids| == |items|
    ensures forall i | 0 <= i < |items| :: ids[i] == Get(items[i], "projectId")
  {
    seq(|items|, i requires 0 <= i < |items| => Get(items[i], "projectId"))
  }

  /** The projects named by a list of ids, in that order, skipping ids
      whose project is absent. */
  function ProjectsOf(rows: map<Key, Item>, ids: seq<Value>): seq<Record>
  {
    if ids == [] then []
    else
      var last := Stored(rows, ProjectKey(Interpolate(ids[|ids| - 1])));
      ProjectsOf(rows, ids[..|ids| - 1]) + (if last.Some? then [last.value] else [])
  }

  /** Every project returned is the stored project of one of the ids, and
      there are never more projects than ids. */
  lemma {:induction false} ProjectsOfAt(rows: map<Key, Item>, ids: seq<Value>)
    ensures |ProjectsOf(rows, ids)| <= |ids|
    ensures forall i | 0 <= i < |ProjectsOf(rows, ids)| :: exists j | 0 <= j < |ids| ::
      Stored(rows, ProjectKey(Interpolate(ids[j]))) == Some(ProjectsOf(rows, ids)[i])
  {
    if ids != [] {
      var init := ids[..|ids| - 1];
      ProjectsOfAt(rows, init);
      var ps := ProjectsOf(rows, init);
      forall i | 0 <= i < |ps|
        ensures exists j | 0 <= j < |ids| :: Stored(rows, ProjectKey(Interpolate(ids[j]))) == Some(ps[i])
      {
        var j :| 0 <= j < |init| && Stored(rows, ProjectKey(Interpolate(init[j]))) == Some(ps[i]);
        assert init[j] == ids[j];
      }
      var last := Stored(rows, ProjectKey(Interpolate(ids[|ids| - 1])));
      if last.Some? {
        assert ProjectsOf(rows, ids)[|ps|] == last.value;
      }
    }
  }

  /** When every id names a stored project, the result holds all of them,
      in id order. */
  lemma {:induction false} ProjectsOfAll(rows: map<Key, Item>, ids: seq<Value>)
    requires forall j | 0 <= j < |ids| :: ProjectKey(Interpolate(ids[j])) in rows
    ensures |ProjectsOf(rows, ids)| == |ids|
    ensures forall j | 0 <= j < |ids| :: Some(ProjectsOf(rows, ids)[j]) == Stored(rows, ProjectKey(Interpolate(ids[j])))
  {
    if ids != [] {
      var init := ids[..|ids| - 1];
      assert forall j | 0 <= j < |init| :: init[j] == ids[j];
      ProjectsOfAll(rows, init);
      var last := Stored(rows, ProjectKey(Interpolate(ids[|ids| - 1])));
      assert ProjectsOf(rows, ids) == ProjectsOf(rows, init) + [last.value];
    }
  }

  class TaskService {
    /** The task's key uses the `projectId` it carries. */
    static method Create(t: Table, taskData: Record, id: string, now: string) returns (r: Result<Record>)
      requires t.Valid()
      modifies t
      ensures t.Valid()
      ensures "PK" !in taskData && "SK" !in taskData ==> (r.Ok? <==> Marshallable(Stamped(taskData, id, now)))
      ensures "PK" !in taskData && "SK" !in taskData && r.Ok? ==>
        var key := TaskKey(Interpolate(Get(taskData, "projectId")), id);
        t.rows == old(t.rows)[key := WithKey(key, Stamped(taskData, id, now))]
      ensures r.Ok? ==> r.value == Stamped(taskData, id, now)
      ensures r.Thrown? ==> t.rows == old(t.rows)
    {
      var task := Stamped(taskData, id, now);
      assert Get(task, "projectId") == Get(taskData, "projectId");
      var p := Interpolate(Get(task, "projectId"));
      ServiceKeys(p, id, p, id);
      r := PutRecord(t, TaskKey(p, id), task);
    }

    static method GetById(t: Table, projectId: string, taskId: string) returns (r: Result<Option<Record>>)
      requires t.Valid()
      ensures r == Ok(Stored(t.rows, TaskKey(projectId, taskId)))
    {
      ServiceKeys(projectId, taskId, projectId, taskId);
      r := Fetch(t, TaskKey(projectId, taskId));
    }

    /** Reads one page of the project's partition, only rows whose sort key
        starts `TASK#`, at most `params?.limit || 50` of them. */
    static method GetByProjectId(t: Table, projectId: string, limit: Option<int>) returns (r: Result<seq<Record>>)
      requires t.Valid()
      ensures r.Thrown? <==> DefaultLimit(limit) < 1
      ensures r.Ok? ==> ListsWithout(r.value, Matching(t.rows, TaskQuery(projectId, limit)), Some(DefaultLimit(limit)), KeyAttrs)
      ensures forall k :: k in Matching(t.rows, TaskQuery(projectId, limit)) <==>
        k in t.rows && k.pk == ProjectPk(projectId) && StartsWith(k.sk, "TASK#")
    {
      var q := TaskQuery(projectId, limit);
      PartitionRows(t.rows, q, ":projectId", ProjectPk(projectId), ":taskPrefix", "TASK#");
      var res := t.Query(q);
      if res.Thrown? {
        return Thrown(res.message);
      }
      r := Ok(StripAll(res.value, KeyAttrs));
    }

    /** Never writes `id`, `projectId` or `createdAt`. */
    static method Update(t: Table, projectId: string, taskId: string, updates: seq<Entry>, now: string)
      returns (r: Result<Option<Record>>)
      requires t.Valid() && DistinctNames(updates)
      modifies t
      ensures t.Valid()
      ensures r.Thrown? <==>
        "updatedAt" in EntriesMap(updates) || "PK" in EntriesMap(updates) || "SK" in EntriesMap(updates)
        || !Marshallable(Without(EntriesMap(updates), {"id", "projectId", "createdAt"}))
      ensures r.Ok? ==>
        var row := Patched(Base(old(t.rows), TaskKey(projectId, taskId)), updates, {"id", "projectId", "createdAt"}, now);
        r.value == Some(Without(row, KeyAttrs)) && t.rows == old(t.rows)[TaskKey(projectId, taskId) := row]
      ensures r.Thrown? ==> t.rows == old(t.rows)
    {
      ServiceKeys(projectId, taskId, projectId, taskId);
      r := ApplyUpdate(t, TaskKey(projectId, taskId), updates, {"id", "projectId", "createdAt"}, now);
    }

    /** Resolves to false only when the store call throws, which it never
        does for this key. */
    static method Delete(t: Table, projectId: string, taskId: string) returns (deleted: bool)
      requires t.Valid()
      modifies t
      ensures t.Valid()
      ensures deleted
      ensures t.rows == old(t.rows) - {TaskKey(projectId, taskId)}
    {
      ServiceKeys(projectId, taskId, projectId, taskId);
      var res := t.DeleteItem(TaskKey(projectId, taskId));
      deleted := res.Ok?;
    }
  }

  /** The attributes removed from a member row before it is returned. */
  const MemberRowAttrs: set<string> := {"PK", "SK", "GSI1PK", "GSI1SK"}

  /** The row `addMember` writes for a member record. */
  function MemberItem(member: Record): Item
  {
    var p := Interpolate(Get(member, "projectId"));
    var u := Interpolate(Get(member, "userId"));
    map["PK" := Str(ProjectPk(p)), "SK" := Str(MemberSk(u)),
        "GSI1PK" := Str(UserPk(u)), "GSI1SK" := Str(MemberGsi1Sk(p))] + member
  }

  /** A member row is found both by the project's member listing and by
      the user's membership query, and stripping it gives back the member. */
  lemma {:induction false} MemberItemFound(member: Record, p: string, u: string)
    requires Get(member, "projectId") == Str(p) && Get(member, "userId") == Str(u)
    requires forall a | a in MemberRowAttrs :: a !in member
    ensures ItemKey(MemberItem(member)) == Some(MemberKey(p, u))
    ensures Matches(MemberItem(member), MemberQuery(p))
    ensures Matches(MemberItem(member), MembershipQuery(u))
    ensures Without(MemberItem(member), MemberRowAttrs) == member
    ensures Get(MemberItem(member), "projectId") == Str(p)
  {
    var item := MemberItem(member);
    StartsWithConcat("MEMBER#", u);
    StartsWithConcat("MEMBER#", p);
    assert Without(item, MemberRowAttrs).Keys == member.Keys;
  }

  class ProjectMemberService {
    /** Writes the member row with its GSI1 attributes and stamps
        `joinedAt`. */
    static method AddMember(t: Table, memberData: Record, now: string) returns (r: Result<Record>)
      requires t.Valid()
      modifies t
      ensures t.Valid()
      ensures (forall a | a in MemberRowAttrs :: a !in memberData) ==>
        (r.Ok? <==> Marshallable(memberData["joinedAt" := Str(now)]))
      ensures (forall a | a in MemberRowAttrs :: a !in memberData) && r.Ok? ==>
        var key := MemberKey(Interpolate(Get(memberData, "projectId")), Interpolate(Get(memberData, "userId")));
        t.rows == old(t.rows)[key := MemberItem(memberData["joinedAt" := Str(now)])]
      ensures r.Ok? ==> r.value == memberData["joinedAt" := Str(now)]
      ensures r.Thrown? ==> t.rows == old(t.rows)
    {
      var member := memberData["joinedAt" := Str(now)];
      var p := Interpolate(Get(member, "projectId"));
      var u := Interpolate(Get(member, "userId"));
      var item := MemberItem(member);
      ServiceKeys(p, u, p, u);
      assert Get(member, "projectId") == Get(memberData, "projectId");
      assert Get(member, "userId") == Get(memberData, "userId");
      assert (forall a | a in MemberRowAttrs :: a !in member) ==> (Marshallable(item) <==> Marshallable(member));
      var res := t.PutItem(item);
      if res.Thrown? {
        return Thrown(res.message);
      }
      r := Ok(member);
    }

    /** All member rows of the project, with the four key attributes
        removed. */
    static method GetProjectMembers(t: Table, projectId: string) returns (r: Result<seq<Record>>)
      requires t.Valid()
      ensures r.Ok? && ListsWithout(r.value, Matching(t.rows, MemberQuery(projectId)), None, MemberRowAttrs)
      ensures forall k :: k in Matching(t.rows, MemberQuery(projectId)) <==>
        k in t.rows && k.pk == ProjectPk(projectId) && StartsWith(k.sk, "MEMBER#")
    {
      var q := MemberQuery(projectId);
      PartitionRows(t.rows, q, ":projectId", ProjectPk(projectId), ":memberPrefix", "MEMBER#");
      var res := t.Query(q);
      r := Ok(StripAll(res.value, MemberRowAttrs));
    }
  }

  // ---------------------------------------------------------------------
  // withErrorHandling

  datatype ApiError = ApiError(code: string, message: string)

  datatype ApiResponse<T> = ApiResponse(success: bool, data: Option<T>, error: Option<ApiError>)

  /** Wraps the outcome of a database call: its value on success, and the
      `DATABASE_ERROR` code with the error's message on any throw. */
  function WithErrorHandling<T>(outcome: Result<T>): (resp: ApiResponse<T>)
    ensures resp.success <==> outcome.Ok?
    ensures resp.success ==> resp.data == Some(outcome.value) && resp.error.None?
    ensures !resp.success ==> resp.data.None? && resp.error == Some(ApiError("DATABASE_ERROR", outcome.message))
  {
    match outcome
    case Ok(v) => ApiResponse(true, Some(v), None)
    case Thrown(m) => ApiResponse(false, None, Some(ApiError("DATABASE_ERROR", m)))
  }
}
