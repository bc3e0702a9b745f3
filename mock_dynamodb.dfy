/** The in-memory stand-in for DynamoDB of src/lib/mock-dynamodb.ts: four
    module-level arrays (targets, tasks, projects, users) that the mock
    services append to, filter, update by index and filter-delete. Each
    service owns one array and is modelled as a class holding it as a
    `seq` field; the clock and the id generator are parameters. */
module MockDynamoDb {
  import opened Js
  import Database

  /** `{ ...data, id, createdAt: now, updatedAt: now }`. */
  function Created(data: Record, id: string, now: string): (r: Record)
    ensures Get(r, "id") == Str(id) && Get(r, "createdAt") == Str(now) && Get(r, "updatedAt") == Str(now)
    ensures forall k | k != "id" && k != "createdAt" && k != "updatedAt" :: Get(r, k) == Get(data, k)
  {
    Database.Stamped(data, id, now)
  }

  /** `{ ...current, ...updates, updatedAt: now }`: every supplied field
      takes its new value (`id` and `projectId` included), `updatedAt` is
      restamped, and every other field keeps its value. */
  function Overlay(current: Record, updates: Record, now: string): (r: Record)
    ensures Get(r, "updatedAt") == Str(now)
    ensures forall k | k != "updatedAt" && k in updates :: Get(r, k) == updates[k]
    ensures forall k | k != "updatedAt" && k !in updates :: Get(r, k) == Get(current, k)
  {
    (current + updates)["updatedAt" := Str(now)]
  }

  /** `array.filter(p)`: the elements passing the test, in stored order. */
  function Where(s: seq<Record>, p: Record -> bool): (r: seq<Record>)
    ensures IsSubsequence(r, s)
    ensures forall x :: x in r <==> x in s && p(x)
  {
    FilterIsSubsequence(s, p);
    var r := Filter(s, p);
    assert forall x | x in r :: p(x) by {
      forall x | x in r ensures p(x) {
        var i :| 0 <= i < |r| && r[i] == x;
      }
    }
    assert forall x | x in s && p(x) :: x in r by {
      forall x | x in s && p(x) ensures x in r {
        var i :| 0 <= i < |s| && s[i] == x;
      }
    }
    r
  }

  /** Appending an element extends a filter by that element when it
      passes. */
  lemma {:induction false} FilterAppend(s: seq<Record>, x: Record, p: Record -> bool)
    ensures Filter(s + [x], p) == Filter(s, p) + (if p(x) then [x] else [])
  {
    if s == [] {
      assert [x][1..] == [];
    } else {
      assert (s + [x])[1..] == s[1..] + [x];
      FilterAppend(s[1..], x, p);
    }
  }

  /** Appending an element leaves `find` unchanged when something already
      matched, and otherwise finds the new element if it matches. */
  lemma {:induction false} FindAppend(s: seq<Record>, x: Record, p: Record -> bool)
    ensures Find(s + [x], p) == if Find(s, p).Some? then Find(s, p) else if p(x) then Some(x) else None
  {
    FindIndexAppend(s, x, p);
  }

  lemma {:induction false} FindIndexAppend(s: seq<Record>, x: Record, p: Record -> bool)
    ensures FindIndex(s + [x], p) == if FindIndex(s, p) >= 0 then FindIndex(s, p) else if p(x) then |s| else -1
  {
    if s != [] {
      assert (s + [x])[1..] == s[1..] + [x];
      FindIndexAppend(s[1..], x, p);
    }
  }

  // Targets (lines 91-135)

  predicate IsTarget(t: Record, projectId: string, targetId: string)
  {
    Get(t, "projectId") == Str(projectId) && Get(t, "id") == Str(targetId)
  }

  function TargetIs(projectId: string, targetId: string): Record -> bool
  {
    t => IsTarget(t, projectId, targetId)
  }

  function TargetIsNot(projectId: string, targetId: string): Record -> bool
  {
    t => !IsTarget(t, projectId, targetId)
  }

  function InProject(projectId: string): Record -> bool
  {
    t => Get(t, "projectId") == Str(projectId)
  }

  class MockTargetService {
    var targets: seq<Record>

    /** The service over a given initial array (the sample rows). */
    constructor (initial: seq<Record>)
      ensures targets == initial
    {
      targets := initial;
    }

    /** Pushes the caller's fields stamped with a fresh id and the time,
        and returns that record; existing records are untouched. */
    method Create(targetData: Record, id: string, now: string) returns (target: Record)
      modifies this
      ensures target == Created(targetData, id, now)
      ensures targets == old(targets) + [target]
      ensures Js.Get(targetData, "projectId").Str? ==>
        var p := Js.Get(targetData, "projectId").s;
        old(Get(p, id)).None? ==> Get(p, id) == Some(target)
    {
      target := Created(targetData, id, now);
      if Js.Get(targetData, "projectId").Str? {
        FindAppend(targets, target, TargetIs(Js.Get(targetData, "projectId").s, id));
      }
      targets := targets + [target];
    }

    /** The targets of a project, in stored order. */
    function GetByProject(projectId: string): (r: seq<Record>)
      reads this
      ensures IsSubsequence(r, targets)
      ensures forall x :: x in r <==> x in targets && Js.Get(x, "projectId") == Str(projectId)
    {
      Where(targets, InProject(projectId))
    }

    /** The first target with this project and id, or null. */
    function Get(projectId: string, targetId: string): (r: Option<Record>)
      reads this
      ensures r.None? <==> forall j | 0 <= j < |targets| :: !IsTarget(targets[j], projectId, targetId)
      ensures r.Some? ==> r.value in targets && IsTarget(r.value, projectId, targetId)
    {
      Find(targets, TargetIs(projectId, targetId))
    }

    /** Overlays the updates on the first matching target, or throws
        'Target not found' when there is none. */
    method Update(projectId: string, targetId: string, updates: Record, now: string) returns (r: Result<Record>)
      modifies this
      ensures r.Thrown? <==> forall j | 0 <= j < |old(targets)| :: !IsTarget(old(targets)[j], projectId, targetId)
      ensures r.Thrown? ==> r.message == "Target not found" && targets == old(targets)
      ensures r.Ok? ==>
        var i := FindIndex(old(targets), TargetIs(projectId, targetId));
        0 <= i < |old(targets)| && r.value == Overlay(old(targets)[i], updates, now)
        && targets == old(targets)[i := r.value]
    {
      var i := FindIndex(targets, TargetIs(projectId, targetId));
      if i == -1 {
        return Thrown("Target not found");
      }
      targets := targets[i := Overlay(targets[i], updates, now)];
      r := Ok(targets[i]);
    }

    /** Drops every target with this project and id, keeping the rest in
        order; an absent key changes nothing. */
    method Delete(projectId: string, targetId: string)
      modifies this
      ensures targets == Filter(old(targets), TargetIsNot(projectId, targetId))
      ensures IsSubsequence(targets, old(targets))
      ensures forall x :: x in targets <==> x in old(targets) && !IsTarget(x, projectId, targetId)
      ensures (forall j | 0 <= j < |old(targets)| :: !IsTarget(old(targets)[j], projectId, targetId)) ==> targets == old(targets)
    {
      var before := targets;
      targets := Where(targets, TargetIsNot(projectId, targetId));
      if forall j | 0 <= j < |before| :: !IsTarget(before[j], projectId, targetId) {
        FilterAll(before, TargetIsNot(projectId, targetId));
      }
    }
  }

  // Tasks (lines 199-245)

  predicate IsTask(t: Record, projectId: string, taskId: string)
  {
    Get(t, "projectId") == Str(projectId) && Get(t, "id") == Str(taskId)
  }

  function TaskIs(projectId: string, taskId: string): Record -> bool
  {
    t => IsTask(t, projectId, taskId)
  }

  function TaskIsNot(projectId: string, taskId: string): Record -> bool
  {
    t => !IsTask(t, projectId, taskId)
  }

  class MockTaskService {
    var tasks: seq<Record>

    constructor (initial: seq<Record>)
      ensures tasks == initial
    {
      tasks := initial;
    }

    method Create(taskData: Record, id: string, now: string) returns (task: Record)
      modifies this
      ensures task == Created(taskData, id, now)
      ensures tasks == old(tasks) + [task]
      ensures Js.Get(taskData, "projectId").Str? ==>
        var p := Js.Get(taskData, "projectId").s;
        old(GetById(p, id)).None? ==> GetById(p, id) == Some(task)
    {
      task := Created(taskData, id, now);
      if Js.Get(taskData, "projectId").Str? {
        FindAppend(tasks, task, TaskIs(Js.Get(taskData, "projectId").s, id));
      }
      tasks := tasks + [task];
    }

    /** The tasks of a project, in stored order; equal `order` values are
        not reordered because nothing is sorted. */
    function GetByProjectId(projectId: string): (r: seq<Record>)
      reads this
      ensures IsSubsequence(r, tasks)
      ensures forall x :: x in r <==> x in tasks && Js.Get(x, "projectId") == Str(projectId)
    {
      Where(tasks, InProject(projectId))
    }

    function GetById(projectId: string, taskId: string): (r: Option<Record>)
      reads this
      ensures r.None? <==> forall j | 0 <= j < |tasks| :: !IsTask(tasks[j], projectId, taskId)
      ensures r.Some? ==> r.value in tasks && IsTask(r.value, projectId, taskId)
    {
      Find(tasks, TaskIs(projectId, taskId))
    }

    /** Overlays the updates on the first matching task; null when there
        is none. */
    method Update(projectId: string, taskId: string, updates: Record, now: string) returns (r: Option<Record>)
      modifies this
      ensures r.None? <==> forall j | 0 <= j < |old(tasks)| :: !IsTask(old(tasks)[j], projectId, taskId)
      ensures r.None? ==> tasks == old(tasks)
      ensures r.Some? ==>
        var i := FindIndex(old(tasks), TaskIs(projectId, taskId));
        0 <= i < |old(tasks)| && r.value == Overlay(old(tasks)[i], updates, now)
        && tasks == old(tasks)[i := r.value]
    {
      var i := FindIndex(tasks, TaskIs(projectId, taskId));
      if i == -1 {
        return None;
      }
      tasks := tasks[i := Overlay(tasks[i], updates, now)];
      r := Some(tasks[i]);
    }

    /** Drops every matching task and reports whether the array got
        shorter, which is exactly when some task matched. */
    method Delete(projectId: string, taskId: string) returns (removed: bool)
      modifies this
      ensures tasks == Filter(old(tasks), TaskIsNot(projectId, taskId))
      ensures forall x :: x in tasks <==> x in old(tasks) && !IsTask(x, projectId, taskId)
      ensures removed <==> |tasks| < |old(tasks)|
      ensures removed <==> exists j | 0 <= j < |old(tasks)| :: IsTask(old(tasks)[j], projectId, taskId)
    {
      var initialLength := |tasks|;
      var before := tasks;
      tasks := Where(tasks, TaskIsNot(projectId, taskId));
      FilterShorter(before, TaskIsNot(projectId, taskId));
      removed := |tasks| < initialLength;
    }
  }

  // Projects (lines 247-291)

  function HasId(id: string): Record -> bool
  {
    r => Get(r, "id") == Str(id)
  }

  function LacksId(id: string): Record -> bool
  {
    r => Get(r, "id") != Str(id)
  }

  function OwnedBy(userId: string): Record -> bool
  {
    p => Get(p, "ownerId") == Str(userId)
  }

  class MockProjectService {
    var projects: seq<Record>

    constructor (initial: seq<Record>)
      ensures projects == initial
    {
      projects := initial;
    }

    method Create(projectData: Record, id: string, now: string) returns (project: Record)
      modifies this
      ensures project == Created(projectData, id, now)
      ensures projects == old(projects) + [project]
      ensures old(GetById(id)).None? ==> GetById(id) == Some(project)
    {
      project := Created(projectData, id, now);
      FindAppend(projects, project, HasId(id));
      projects := projects + [project];
    }

    /** The projects whose owner is the user, in stored order. */
    function GetByUserId(userId: string): (r: seq<Record>)
      reads this
      ensures IsSubsequence(r, projects)
      ensures forall x :: x in r <==> x in projects && Js.Get(x, "ownerId") == Str(userId)
    {
      Where(projects, OwnedBy(userId))
    }

    function GetById(projectId: string): (r: Option<Record>)
      reads this
      ensures r.None? <==> forall j | 0 <= j < |projects| :: Js.Get(projects[j], "id") != Str(projectId)
      ensures r.Some? ==> r.value in projects && Js.Get(r.value, "id") == Str(projectId)
    {
      Find(projects, HasId(projectId))
    }

    method Update(projectId: string, updates: Record, now: string) returns (r: Option<Record>)
      modifies this
      ensures r.None? <==> forall j | 0 <= j < |old(projects)| :: Js.Get(old(projects)[j], "id") != Str(projectId)
      ensures r.None? ==> projects == old(projects)
      ensures r.Some? ==>
        var i := FindIndex(old(projects), HasId(projectId));
        0 <= i < |old(projects)| && r.value == Overlay(old(projects)[i], updates, now)
        && projects == old(projects)[i := r.value]
    {
      var i := FindIndex(projects, HasId(projectId));
      if i == -1 {
        return None;
      }
      projects := projects[i := Overlay(projects[i], updates, now)];
      r := Some(projects[i]);
    }

    method Delete(projectId: string)
      modifies this
      ensures projects == Filter(old(projects), LacksId(projectId))
      ensures IsSubsequence(projects, old(projects))
      ensures forall x :: x in projects <==> x in old(projects) && Js.Get(x, "id") != Str(projectId)
      ensures (forall j | 0 <= j < |old(projects)| :: Js.Get(old(projects)[j], "id") != Str(projectId)) ==> projects == old(projects)
    {
      var before := projects;
      projects := Where(projects, LacksId(projectId));
      if forall j | 0 <= j < |before| :: Js.Get(before[j], "id") != Str(projectId) {
        FilterAll(before, LacksId(projectId));
      }
    }
  }

  // Users (lines 365-439)

  predicate Active(u: Record)
  {
    Truthy(Get(u, "isActive"))
  }

  function IsActive(): Record -> bool
  {
    u => Active(u)
  }

  function ActiveWith(attr: string, v: string): Record -> bool
  {
    u => Get(u, attr) == Str(v) && Active(u)
  }

  /** `user.isActive && user.name.includes(nameQuery)`; a name that is not
      a string is taken not to match. */
  predicate NameMatches(u: Record, nameQuery: string)
  {
    Active(u) && Get(u, "name").Str? && Contains(Get(u, "name").s, nameQuery)
  }

  function NameQuery(nameQuery: string): Record -> bool
  {
    u => NameMatches(u, nameQuery)
  }

  /** `searchByName`'s default limit. */
  const DefaultSearchLimit := 20

  /** `{ ...user, isActive: false, updatedAt: now }`. */
  function Deactivated(u: Record, now: string): (r: Record)
    ensures !Active(r) && Get(r, "updatedAt") == Str(now)
    ensures forall k | k != "isActive" && k != "updatedAt" :: Get(r, k) == Get(u, k)
  {
    u["isActive" := Bool(false)]["updatedAt" := Str(now)]
  }

  /** No two users carry the id. */
  predicate UniqueId(users: seq<Record>, userId: string)
  {
    forall i, j | 0 <= i < j < |users| :: !(Get(users[i], "id") == Str(userId) && Get(users[j], "id") == Str(userId))
  }

  /** Once the only user with an id is soft-deleted, looking the id up
      finds nobody. */
  lemma {:induction false} DeactivatedHidden(users: seq<Record>, userId: string, now: string)
    requires UniqueId(users, userId)
    requires FindIndex(users, HasId(userId)) >= 0
    ensures
      var i := FindIndex(users, HasId(userId));
      Find(users[i := Deactivated(users[i], now)], ActiveWith("id", userId)).None?
  {
    var i := FindIndex(users, HasId(userId));
    var after := users[i := Deactivated(users[i], now)];
    forall j | 0 <= j < |after| ensures !ActiveWith("id", userId)(after[j]) {
      if j != i {
        assert Get(users[i], "id") == Str(userId);
        if j < i {
          assert !HasId(userId)(users[j]);
        } else {
          assert !(Get(users[i], "id") == Str(userId) && Get(users[j], "id") == Str(userId));
        }
      }
    }
  }

  /** Without unique ids a soft delete may leave the id visible: it
      deactivates the first user with the id, and a second active one is
      still found. */
  lemma DuplicateIdSurvivesDelete()
    ensures
      var u := map["id" := Str("u"), "isActive" := Bool(true)];
      var users := [u, u];
      var i := FindIndex(users, HasId("u"));
      i == 0 && Find(users[i := Deactivated(users[i], "t")], ActiveWith("id", "u")) == Some(u)
  {
    var u := map["id" := Str("u"), "isActive" := Bool(true)];
    var users := [u, u];
    assert HasId("u")(users[0]);
    var after := users[0 := Deactivated(users[0], "t")];
    assert !ActiveWith("id", "u")(after[0]);
    assert ActiveWith("id", "u")(after[1]);
  }

  class MockUserService {
    var users: seq<Record>

    constructor (initial: seq<Record>)
      ensures users == initial
    {
      users := initial;
    }

    method Create(userData: Record, id: string, now: string) returns (user: Record)
      modifies this
      ensures user == Created(userData, id, now)
      ensures users == old(users) + [user]
    {
      user := Created(userData, id, now);
      users := users + [user];
    }

    /** The active users, in stored order. */
    function GetAll(): (r: seq<Record>)
      reads this
      ensures IsSubsequence(r, users)
      ensures forall x :: x in r <==> x in users && Active(x)
    {
      Where(users, IsActive())
    }

    /** The first active user with the id, or null. */
    function GetById(userId: string): (r: Option<Record>)
      reads this
      ensures r.None? <==> forall j | 0 <= j < |users| :: !(Js.Get(users[j], "id") == Str(userId) && Active(users[j]))
      ensures r.Some? ==> r.value in users && Active(r.value) && Js.Get(r.value, "id") == Str(userId)
    {
      Find(users, ActiveWith("id", userId))
    }

    /** The first active user with the e-mail address, or null. */
    function GetByEmail(email: string): (r: Option<Record>)
      reads this
      ensures r.None? <==> forall j | 0 <= j < |users| :: !(Js.Get(users[j], "email") == Str(email) && Active(users[j]))
      ensures r.Some? ==> r.value in users && Active(r.value) && Js.Get(r.value, "email") == Str(email)
    {
      Find(users, ActiveWith("email", email))
    }

    /** The first `limit` (default 20) active users whose name contains the
        query, in stored order. */
    function SearchByName(nameQuery: string, limit: Option<int>): (r: seq<Record>)
      reads this
      ensures var n := if limit.Some? then limit.value else DefaultSearchLimit;
        n >= 0 ==> |r| <= n
      ensures forall i | 0 <= i < |r| :: r[i] in users && NameMatches(r[i], nameQuery)
      ensures var all := Where(users, NameQuery(nameQuery));
        |r| <= |all| && r == all[..|r|]
        && (var n := if limit.Some? then limit.value else DefaultSearchLimit;
            n >= |all| ==> r == all)
    {
      var n := if limit.Some? then limit.value else DefaultSearchLimit;
      var all := Where(users, NameQuery(nameQuery));
      assert forall i | 0 <= i < |all| :: all[i] in all;
      SliceTo(all, n)
    }

    /** Overlays the updates on the first user with the id, active or not;
        null when there is none. */
    method Update(userId: string, updates: Record, now: string) returns (r: Option<Record>)
      modifies this
      ensures r.None? <==> forall j | 0 <= j < |old(users)| :: Js.Get(old(users)[j], "id") != Str(userId)
      ensures r.None? ==> users == old(users)
      ensures r.Some? ==>
        var i := FindIndex(old(users), HasId(userId));
        0 <= i < |old(users)| && r.value == Overlay(old(users)[i], updates, now)
        && users == old(users)[i := r.value]
    {
      var i := FindIndex(users, HasId(userId));
      if i == -1 {
        return None;
      }
      users := users[i := Overlay(users[i], updates, now)];
      r := Some(users[i]);
    }

    /** Soft delete: the first user with the id stays, marked inactive and
        restamped; false when there is none. */
    method Delete(userId: string, now: string) returns (deleted: bool)
      modifies this
      ensures !deleted <==> forall j | 0 <= j < |old(users)| :: Js.Get(old(users)[j], "id") != Str(userId)
      ensures !deleted ==> users == old(users)
      ensures deleted ==>
        var i := FindIndex(old(users), HasId(userId));
        0 <= i < |old(users)| && users == old(users)[i := Deactivated(old(users)[i], now)]
      ensures deleted && UniqueId(old(users), userId) ==> GetById(userId).None?
    {
      var i := FindIndex(users, HasId(userId));
      if i == -1 {
        return false;
      }
      if UniqueId(users, userId) {
        DeactivatedHidden(users, userId, now);
      }
      users := users[i := Deactivated(users[i], now)];
      deleted := true;
    }

    /** Every active user, whatever the project. */
    function GetAvailableMembers(projectId: string): (r: seq<Record>)
      reads this
      ensures r == GetAll()
    {
      Where(users, IsActive())
    }
  }
}
