# ToDo-Appli core, modelled in Dafny

ToDo-Appli is a Next.js to-do and matrix-tracking app. It keeps users,
tenants, projects, targets (customers), tasks and project members in one
DynamoDB table, under composite `PK`/`SK` keys built from tagged ids
(`USER#…`, `PROJECT#…`, `TASK#…`, `TARGET#…`, `MEMBER#…`, `TENANT#…`). A
secondary index `GSI1` serves "projects of a user" and "tasks of an
assignee". A mock store of in-memory arrays stands in for the table during
development. Around the data layer sit pure helpers: export formatting,
password and e-mail checks, date buckets, shuffling. Several client pages
keep lists in React state: notifications, invitations, a multi-select box
and the project-creation form.

The model has these modules:

- `Js` (`js.dfy`): JavaScript values and records (`map<string, Value>`), plus
  truthiness and `String.prototype` helpers (`startsWith`, `split`, `join`,
  `trim`). It also models `Array.prototype.filter`/`find`/`findIndex`/`slice`.
- `Keys` (`keys.dfy`): the key builders and the facts that keep keys apart.
- `Store` (`store.dfy`): the table. The class `Store.Table` owns
  `rows: map<Key, Item>`. Update expressions (`SET #n = :v, …`) are
  structured values, and `Store.Update` gives DynamoDB's semantics for them:
  unresolved or unused placeholders, updates that touch a key attribute and
  overlapping paths are rejected, and an absent key is an upsert. Key
  conditions (`PK = :pk [AND begins_with(SK, :sk) | AND GSI1SK = :sk]`) are
  also structured values. The document client is built without
  `removeUndefinedValues`. The model assumes that an `undefined` anywhere
  in an item or a value map then makes the request throw before it is sent
  (`Store.Marshallable`); "## Left out" says where this assumption matters.
- `Database` (`database.dfy`): `src/lib/database.ts`. It covers the user,
  project, task and project-member services, the generic update builder
  (`#key = :key` per supplied field, minus the excluded fields, then
  `updatedAt`), and `withErrorHandling`.
- `Targets` (`targets.dfy`): `src/lib/target-service.ts`, including the
  whitelisting update builder (`#attr{i} = :val{i}`).
- `DynamoDb` (`dynamodb.dfy`): `src/lib/dynamodb.ts`. It covers the generic
  `DynamoDBService` and the user, tenant, project and task services built on
  it.
- `MockDynamoDb` (`mock_dynamodb.dfy`): `src/lib/mock-dynamodb.ts`. Each
  mock service is a class whose `seq` field is the module-level array.
- `Export` (`export.dfy`): `src/lib/export.ts` (labels, row conversion,
  filtering).
- `Auth` (`auth.dfy`): the pure helpers of `src/lib/auth.ts`.
- `Utils` (`utils.dfy`): the pure helpers of `src/lib/utils.ts`.
  `shuffle` works in place on an array.
- `Notifications`, `Invitations`, `Select`, `CreateProject`: the list state
  of the notifications page, the invitations page, `Select.tsx` and the
  project-creation page. Each is a class whose fields are the component's
  `useState` variables.

Inputs that are not part of the program's logic become parameters:

- The clock becomes `now`: an ISO string in the data layer and milliseconds
  on the pages.
- Generated ids become `id`.
- `Math.random` becomes `picks`, the chosen swap indices.
- Locale date formatting becomes `localeDate`.
- Date parsing becomes `time`.

## Model

| member | source | states |
|---|---|---|
| `Keys.TaggedInjective` | src/lib/database.ts:43-44 | Two keys built from the same tag are equal exactly when their ids are. |
| `Keys.ProjectChildKindsDisjoint` | src/lib/database.ts:248-264 | Task, target and member sort keys never collide with each other or with `METADATA`. Each kind is recognised by its prefix alone, so a `begins_with(SK, 'TASK#')` query returns only tasks. |
| `Keys.CellPkInjective` | src/lib/dynamodb.ts:213 | `PROJECT#p#TARGET#t` identifies p and t uniquely when the project id contains no `#`. |
| `Keys.CellPkCollision` | src/lib/dynamodb.ts:227-230 | Without that condition, two different (project, target) pairs share one partition. |
| `Keys.CellPkNotProjectPk` | src/lib/dynamodb.ts:213 | A cell partition never equals `PROJECT#q` for a project id q without `#`. |
| `Js.JoinSplit` | src/components/ui/Select.tsx:37 | `join(split(s, ','), ',')` gives back s. |
| `Js.SplitJoin` | src/components/ui/Select.tsx:60 | Splitting a `,`-join of one or more comma-free parts gives back the parts. |
| `Js.Find` | src/lib/mock-dynamodb.ts:390 | `find` gives nothing exactly when no element passes; otherwise it gives the first element that passes. |
| `Js.FilterShorter` | src/lib/mock-dynamodb.ts:240-244 | A filter is strictly shorter than its input exactly when some element fails the predicate. |
| `Store.WithoutWithKey` | src/lib/database.ts:53-67 | Removing `PK`/`SK` from a stored item gives back the record that was written, if the record had no key attributes. |
| `Store.Matching` | src/lib/dynamodb.ts:82-90 | The rows a query selects are exactly the table rows that match its key condition, unchanged. |
| `Store.UpdateAccepted` | src/lib/dynamodb.ts:37-59 | An update succeeds exactly when DynamoDB accepts the request. The new item is the old item, or only the key for an absent row, overwritten by the assigned attributes. |
| `Store.UpdateEffect` | src/lib/dynamodb.ts:48-58 | A successful update keeps the key, writes every SET value, and leaves every unassigned attribute as it was. |
| `Store.EntryUpdate` | src/lib/dynamodb.ts:37-59 | With one `#k = :k` clause per entry, the update succeeds exactly when the key is valid, there is at least one entry, names are distinct, no key attribute is named and every value is defined. The result is the old row plus the entries. |
| `Store.LinedUpdate` | src/lib/target-service.ts:117-131 | The same outcome for any request whose clauses, names and values line up with an entry list, including ones with indexed placeholders. |
| `Store.PartitionRows` | src/lib/target-service.ts:60-67 | A `PK = :pk AND begins_with(SK, :prefix)` query selects exactly the rows of that partition whose sort key starts with the prefix. |
| `Store.ListsEmpty` | src/lib/database.ts:158-160 | A page under a valid limit is empty exactly when no row matches. |
| `Store.Table.GetItem` | src/lib/dynamodb.ts:15-23 | Returns the stored row or nothing, and throws on a key with an empty part. |
| `Store.Table.PutItem` | src/lib/dynamodb.ts:26-34 | Throws on an unmarshallable item or a bad key and leaves the table unchanged. Otherwise replaces the row at the item's key. |
| `Store.Table.UpdateItem` | src/lib/dynamodb.ts:37-59 | The result is `Update(old rows, request)`. On success the row is replaced by the result; on failure nothing changes. |
| `Store.Table.DeleteItem` | src/lib/dynamodb.ts:62-69 | Removes exactly that key. Deleting an absent key is not an error. |
| `Store.Table.Query` | src/lib/dynamodb.ts:72-91 | Throws on an undefined value, an unresolved placeholder or a limit below 1. Otherwise the page holds distinct matching rows, at most the limit, and all of them when fewer match. |
| `Database.ServiceKeys` | src/lib/database.ts:43-44 | The user, project, task and member keys are valid, injective in their ids, and pairwise distinct. The project, task and member keys are built the same way at lines 119-120, 222-223 and in `addMember`. |
| `Database.Stamped` | src/lib/database.ts:33-38 | A created record holds the caller's fields plus `id`, `createdAt` and `updatedAt`. The generated fields win over supplied ones. |
| `Database.CreateThenGet` | src/lib/database.ts:53-67 | Reading a key just written returns the written record without `PK`/`SK`. Other keys read as before. |
| `Database.PutRecord` | src/lib/database.ts:40-50 | A put of a record under a key succeeds exactly when the record is marshallable, and then stores it under that key. |
| `Database.Fetch` | src/lib/database.ts:53-67 | A get returns the stored record without its key attributes, or null. |
| `Database.BuildUpdate` | src/lib/database.ts:74-84 | The loop builds exactly the clauses, names and values of the kept entries followed by the `updatedAt` stamp. |
| `Database.KeptMap` | src/lib/database.ts:74-80 | The kept entries, as a record, are the updates minus the excluded fields. |
| `Database.KeptDistinct` | src/lib/database.ts:74-80 | Dropping excluded fields keeps names distinct. |
| `Database.PatchedAt` | src/lib/database.ts:69-103 | After an update, `updatedAt` is now and every kept supplied field has its new value. Every other attribute of the row is unchanged. |
| `Database.StampedUpdate` | src/lib/database.ts:82-84 | The update is accepted exactly when the caller supplied no `updatedAt`, `PK` or `SK` and every kept value is defined. A caller-supplied `updatedAt` yields two clauses on one path, which DynamoDB rejects. |
| `Database.StampedEntries` | src/lib/database.ts:74-84 | The built entries never name a key attribute and are distinct iff `updatedAt` was not supplied. As a record they are the kept updates with `updatedAt` set to now. |
| `Database.StampedDefined` | src/lib/database.ts:74-84 | The values are sendable exactly when every kept supplied value is defined. |
| `Database.ApplyUpdate` | src/lib/database.ts:86-101 | Sends the built update. It throws exactly when `StampedUpdate` says it is rejected; otherwise the row becomes the patched row. |
| `Database.TaskQuery` | src/lib/database.ts:250-257 | The task listing query resolves all its placeholders and carries only defined values. |
| `Database.MemberQuery` | src/lib/database.ts:346-353 | The member listing query resolves and is sendable. |
| `Database.MembershipQuery` | src/lib/database.ts:147-155 | The membership query on GSI1 resolves and is sendable. |
| `Database.UserService.Create` | src/lib/database.ts:32-51 | Writes the stamped user under `USER#id`/`PROFILE` and returns it. It throws, leaving the table unchanged, exactly when a field is undefined. |
| `Database.UserService.GetById` | src/lib/database.ts:53-67 | Returns the stored profile without `PK`/`SK`, or null. |
| `Database.UserService.Update` | src/lib/database.ts:69-103 | Skips `id` and `createdAt` among the supplied fields and stamps `updatedAt`. It throws exactly when `StampedUpdate` rejects; otherwise it returns the patched row without `PK`/`SK`. |
| `Database.ProjectService.Create` | src/lib/database.ts:108-127 | Writes the stamped project under `PROJECT#id`/`METADATA`. It throws exactly when a field is undefined. |
| `Database.ProjectService.GetById` | src/lib/database.ts:129-143 | Returns the stored project without `PK`/`SK`, or null. |
| `Database.ProjectService.Update` | src/lib/database.ts:172-206 | Skips `id` and `createdAt`, with the same outcome as the user update. |
| `Database.ProjectService.GetByUserId` | src/lib/database.ts:145-170 | Reads the user's membership rows from GSI1 and returns the projects they name, in order, skipping missing ones. No membership gives `[]`. |
| `Database.ProjectService.CollectProjects` | src/lib/database.ts:161-168 | The loop returns exactly `ProjectsOf(rows, ids)`. |
| `Database.ProjectIds` | src/lib/database.ts:158 | One project id per membership row, read from `projectId`. |
| `Database.ProjectsOfAt` | src/lib/database.ts:163-167 | Each returned project is the stored project of one of the ids, and there are no more projects than ids. |
| `Database.ProjectsOfAll` | src/lib/database.ts:163-167 | When every id names a stored project, the i-th result is the i-th id's project. |
| `Database.TaskService.Create` | src/lib/database.ts:211-230 | Writes the stamped task under `PROJECT#p`/`TASK#id`. It throws exactly when a field is undefined. |
| `Database.TaskService.GetById` | src/lib/database.ts:232-246 | Returns the stored task without `PK`/`SK`, or null. |
| `Database.TaskService.GetByProjectId` | src/lib/database.ts:248-264 | `limit \|\| 50` rows of the project's `TASK#` rows, without `PK`/`SK`. It throws when the effective limit is below 1. |
| `Database.TaskService.Update` | src/lib/database.ts:266-300 | Skips `id`, `projectId` and `createdAt`, with the same outcome as the user update. |
| `Database.TaskService.Delete` | src/lib/database.ts:302-318 | Removes exactly the task's key and reports success. A valid key never throws. |
| `Database.MemberItemFound` | src/lib/database.ts:323-342 | A member row is keyed `PROJECT#p`/`MEMBER#u`. It is found by both the project's member query and the user's GSI1 query, and stripping the four key attributes gives back the member. |
| `Database.ProjectMemberService.AddMember` | src/lib/database.ts:323-342 | Stamps `joinedAt`, writes the indexed member row and returns the member. It throws exactly when a field is undefined. |
| `Database.ProjectMemberService.GetProjectMembers` | src/lib/database.ts:344-359 | Returns the project's `MEMBER#` rows without `PK`, `SK`, `GSI1PK` and `GSI1SK`. |
| `Database.WithErrorHandling` | src/lib/database.ts:363-381 | Success exactly when the operation returned. Otherwise `DATABASE_ERROR` with the thrown message and no data. |
| `Targets.BuildTargetUpdate` | src/lib/target-service.ts:95-119 | The loop builds the `updatedAt` clause followed by `#attr{i} = :val{i}` for each supplied whitelisted field, and exactly the matching name and value maps. The expression is their rendering. |
| `Targets.StampClauseText` | src/lib/target-service.ts:95 | The stamp clause renders as `SET #updatedAt = :updatedAt`. |
| `Targets.TargetExpressionText` | src/lib/target-service.ts:117-119 | Rendering the stamp clause followed by the field clauses equals the source's string concatenation, in both branches. |
| `Targets.AttrClauseFresh` | src/lib/target-service.ts:109-110 | Indexed placeholders are pairwise distinct and never clash with `#updatedAt`/`:updatedAt`. |
| `Targets.FieldsDistinct` | src/lib/target-service.ts:104 | The six updatable fields are distinct, and none is a key attribute or `updatedAt`. |
| `Targets.EntriesPicked` | src/lib/target-service.ts:107-115 | The built entries are the stamp followed by the supplied fields, in whitelist order. |
| `Targets.TargetDistinct` | src/lib/target-service.ts:104-115 | The built entries have distinct names and never name `PK` or `SK`. |
| `Targets.TargetEntriesDefined` | src/lib/target-service.ts:108-113 | The values are sendable exactly when every supplied whitelisted field is defined. |
| `Targets.TargetUpdateOutcome` | src/lib/target-service.ts:121-135 | The update succeeds exactly when the supplied fields are defined. The new row is the old row (or just its key) plus the whitelisted record. |
| `Targets.WhitelistedAt` | src/lib/target-service.ts:104-115 | The whitelisted record restamps `updatedAt` and takes every supplied field's value. It holds nothing else, so `id`, `projectId` and `createdAt` are never written. |
| `Targets.TargetQuery` | src/lib/target-service.ts:60-67 | The target listing query resolves and is sendable. |
| `Targets.TargetKeyValid` | src/lib/target-service.ts:80-83 | Target keys are valid table keys. |
| `Targets.TargetService.Create` | src/lib/target-service.ts:37-56 | Writes the stamped target under `PROJECT#p`/`TARGET#id` and returns it without key attributes. It throws exactly when a field is undefined. |
| `Targets.TargetService.GetByProject` | src/lib/target-service.ts:59-74 | Returns the project's `TARGET#` rows without `PK`/`SK`. |
| `Targets.TargetService.Get` | src/lib/target-service.ts:77-91 | Returns the stored target without `PK`/`SK`, or null. |
| `Targets.TargetService.Update` | src/lib/target-service.ts:94-136 | Succeeds exactly when the supplied fields are defined. The row becomes old row + whitelisted record, and the result omits `PK`/`SK`. |
| `Targets.TargetService.Delete` | src/lib/target-service.ts:139-149 | Removes exactly that key. |
| `DynamoDb.PartitionQuery` | src/lib/dynamodb.ts:72-80 | `:pk` is always bound, and `:sk` is bound exactly when a prefix is given (a truthy string). The request resolves and is sendable. |
| `DynamoDb.IndexQuery` | src/lib/dynamodb.ts:94-102 | The same for GSI queries, naming the index. |
| `DynamoDb.PrefixConditionText` | src/lib/dynamodb.ts:74 | The prefix condition renders as `PK = :pk AND begins_with(SK, :sk)`. |
| `DynamoDb.IndexConditionText` | src/lib/dynamodb.ts:96 | The index condition renders as `GSI1PK = :pk AND GSI1SK = :sk`. |
| `DynamoDb.PartitionQueryText` | src/lib/dynamodb.ts:73-75 | The condition text is chosen by whether a prefix is given. |
| `DynamoDb.IndexQueryText` | src/lib/dynamodb.ts:95-97 | The same for the index condition. |
| `DynamoDb.PartitionQueryRows` | src/lib/dynamodb.ts:72-91 | A partition query selects exactly the partition's rows, filtered by the prefix when one is given. |
| `DynamoDb.IndexQueryRows` | src/lib/dynamodb.ts:94-114 | A GSI query selects exactly the rows whose `GSI1PK` equals pk and, when sk is given, whose `GSI1SK` equals sk. |
| `DynamoDb.AssignEntries` | src/lib/dynamodb.ts:143 | `{ ...updates, updatedAt }` as an entry list: names stay distinct, and the record is the updates with `updatedAt` set. |
| `DynamoDb.DynamoDBService.GetItem` | src/lib/dynamodb.ts:15-23 | Returns the stored item or undefined. An empty key throws. |
| `DynamoDb.DynamoDBService.PutItem` | src/lib/dynamodb.ts:26-34 | Writes the item and returns it. It throws, unchanged, on an undefined field or a bad key. |
| `DynamoDb.DynamoDBService.UpdateItem` | src/lib/dynamodb.ts:37-59 | One clause per field and nothing excluded. It succeeds exactly when the key is valid, there is at least one field, no field is undefined and `PK`/`SK` are not named. The result is the old row plus the updates. |
| `DynamoDb.DynamoDBService.DeleteItem` | src/lib/dynamodb.ts:62-69 | Removes exactly that key. |
| `DynamoDb.DynamoDBService.Query` | src/lib/dynamodb.ts:72-91 | Throws only on a limit below 1. Otherwise a page of the partition's rows, filtered by the prefix. |
| `DynamoDb.DynamoDBService.QueryGsi` | src/lib/dynamodb.ts:94-114 | Throws only on a limit below 1. Otherwise a page of the index rows with equal `GSI1PK` and, when given, equal `GSI1SK`. |
| `DynamoDb.Created` | src/lib/dynamodb.ts:122-128 | A created item has `createdAt = updatedAt = now`. Data fields override the key head, and nothing else is added. |
| `DynamoDb.CreatedMarshallable` | src/lib/dynamodb.ts:122-130 | A created item is sendable exactly when every data field, and every head field not overridden, is defined. |
| `DynamoDb.UserItem` | src/lib/dynamodb.ts:122-128 | The user item is keyed `USER#id`/`USER#id`. |
| `DynamoDb.TenantItem` | src/lib/dynamodb.ts:154-160 | The tenant item is keyed `TENANT#id`/`TENANT#id`. |
| `DynamoDb.CreatedIndexed` | src/lib/dynamodb.ts:177-185 | An item created with GSI attributes keeps its key and carries the given `GSI1PK`/`GSI1SK`. |
| `DynamoDb.ProjectItem` | src/lib/dynamodb.ts:177-185 | The project item is keyed `TENANT#t`/`PROJECT#id`, indexed `USER#createdBy`/`PROJECT#id`. |
| `DynamoDb.TaskItem` | src/lib/dynamodb.ts:212-220 | The task item is keyed `PROJECT#p#TARGET#t`/`TASK#s`. Its index attributes are `ASSIGNEE#first` and `DUE#d#p#t#s`, or `undefined`. |
| `DynamoDb.PutCreated` | src/lib/dynamodb.ts:130 | Putting a created item succeeds exactly when it is marshallable. Otherwise it throws the client's undefined-value error and leaves the table unchanged. |
| `DynamoDb.TaggedKeysValid` | src/lib/dynamodb.ts:123-124 | The user, tenant, project and task keys are valid. |
| `DynamoDb.UserService.CreateUser` | src/lib/dynamodb.ts:120-132 | Writes and returns the user item. It throws exactly when a supplied field is undefined. |
| `DynamoDb.UserService.GetUser` | src/lib/dynamodb.ts:134-137 | Returns the row at `USER#id`/`USER#id`, or null. |
| `DynamoDb.UserService.UpdateUser` | src/lib/dynamodb.ts:139-146 | Succeeds exactly when the updates name no `PK`/`SK` and every value is defined. The row becomes the old row plus the updates with `updatedAt` = now. |
| `DynamoDb.TenantService.CreateTenant` | src/lib/dynamodb.ts:152-164 | Writes and returns the tenant item. It throws exactly when a field is undefined. |
| `DynamoDb.TenantService.GetTenant` | src/lib/dynamodb.ts:166-169 | Returns the row at `TENANT#id`/`TENANT#id`, or null. |
| `DynamoDb.ProjectService.CreateProject` | src/lib/dynamodb.ts:175-189 | Writes and returns the indexed project item. It throws exactly when a field is undefined. |
| `DynamoDb.ProjectService.GetProject` | src/lib/dynamodb.ts:191-194 | Returns the row at `TENANT#t`/`PROJECT#id`, or null. |
| `DynamoDb.ProjectService.GetUserProjects` | src/lib/dynamodb.ts:196-199 | As written: the index rows with `GSI1PK = USER#u` and `GSI1SK` exactly `PROJECT#`. |
| `DynamoDb.ProjectService.GetTenantProjects` | src/lib/dynamodb.ts:201-204 | The tenant partition's `PROJECT#` rows, never the tenant's own row. |
| `DynamoDb.UserProjectsMissCreated` | src/lib/dynamodb.ts:196-197 | A project written by `createProject` (non-empty id) is never matched by the query as written. |
| `DynamoDb.UserProjectsQuery` | src/lib/dynamodb.ts:196-199 | The corrected query, `begins_with(GSI1SK, 'PROJECT#')` on GSI1, resolves and is sendable. |
| `DynamoDb.UserProjectsQueryFindsCreated` | src/lib/dynamodb.ts:196-199 | The corrected query matches every created project of its creator. It selects exactly the rows indexed under the user with a `PROJECT#` index sort key. |
| `DynamoDb.TaskService.CreateTask` | src/lib/dynamodb.ts:210-224 | Succeeds exactly when the task has an assignee and a truthy due date and its other fields are defined. Then it writes and returns the task item. |
| `DynamoDb.TaskService.GetTask` | src/lib/dynamodb.ts:226-232 | Returns the row at the cell key, or null. |
| `DynamoDb.TaskService.GetProjectTasks` | src/lib/dynamodb.ts:234-237 | As written, always returns `[]`: `PROJECT#p` partitions hold no `TARGET#` rows whose SK starts with `TASK#`. |
| `DynamoDb.TaskService.GetUserTasks` | src/lib/dynamodb.ts:239-242 | The index rows with `GSI1PK = ASSIGNEE#u`. |
| `DynamoDb.TaskItemSendable` | src/lib/dynamodb.ts:215-216 | A task item is sendable exactly when the task has an assignee, a truthy due date and defined fields. |
| `DynamoDb.TaskItemUnsendable` | src/lib/dynamodb.ts:215-216 | A task without assignees, or without a due date, yields an item the client refuses. |
| `DynamoDb.SparseTaskItemSendable` | src/lib/dynamodb.ts:215-216 | The corrected item (GSI attributes omitted when absent) has the same key. It is sendable exactly when the task's fields are defined, and it holds `GSI1PK`/`GSI1SK` exactly when there is an assignee or a due date. |
| `DynamoDb.ProjectTasksMissCreated` | src/lib/dynamodb.ts:234-236 | No task item written by `createTask` matches the query as written. |
| `DynamoDb.ProjectTaskQueries` | src/lib/dynamodb.ts:234-237 | The corrected listing issues one query per target. |
| `DynamoDb.ProjectTaskQueriesFind` | src/lib/dynamodb.ts:234-237 | The corrected per-target query matches every task of that cell and selects exactly the cell's `TASK#` rows. |
| `DynamoDb.UserTasksFindAssigned` | src/lib/dynamodb.ts:239-241 | `getUserTasks` of the first assignee matches the task item. |
| `MockDynamoDb.Created` | src/lib/mock-dynamodb.ts:94-99 | A created record is the data with `id`, `createdAt` and `updatedAt` set, with the generated fields winning. |
| `MockDynamoDb.Overlay` | src/lib/mock-dynamodb.ts:122-126 | `{...current, ...updates, updatedAt}`: `updatedAt` is now, supplied fields win, and all else is kept. |
| `MockDynamoDb.Deactivated` | src/lib/mock-dynamodb.ts:424-428 | A deleted user is inactive and restamped, with every other field kept. |
| `MockDynamoDb.DeactivatedHidden` | src/lib/mock-dynamodb.ts:418-431 | After a soft delete of the only user with an id, `getById` of that id finds nobody. |
| `MockDynamoDb.DuplicateIdSurvivesDelete` | src/lib/mock-dynamodb.ts:419 | With two users sharing an id, the delete deactivates only the first, and `getById` still finds the second. |
| `MockDynamoDb.MockTargetService.Create` | src/lib/mock-dynamodb.ts:93-103 | Appends the created target and returns it. A fresh (project, id) pair is then found by `get`. |
| `MockDynamoDb.MockTargetService.GetByProject` | src/lib/mock-dynamodb.ts:106-108 | The targets of that project, in stored order. |
| `MockDynamoDb.MockTargetService.Get` | src/lib/mock-dynamodb.ts:111-113 | The first target with that project and id, or null exactly when none exists. |
| `MockDynamoDb.MockTargetService.Update` | src/lib/mock-dynamodb.ts:116-129 | Throws `Target not found` exactly when no target matches. Otherwise it replaces the first match by the overlay and changes nothing else. |
| `MockDynamoDb.MockTargetService.Delete` | src/lib/mock-dynamodb.ts:132-134 | Removes every matching target, keeps the order of the rest, and changes nothing when none matches. |
| `MockDynamoDb.MockTaskService.Create` | src/lib/mock-dynamodb.ts:201-211 | Appends the created task and returns it. |
| `MockDynamoDb.MockTaskService.GetByProjectId` | src/lib/mock-dynamodb.ts:214-216 | The tasks of that project, in stored order. |
| `MockDynamoDb.MockTaskService.GetById` | src/lib/mock-dynamodb.ts:219-221 | The first matching task, or null exactly when none exists. |
| `MockDynamoDb.MockTaskService.Update` | src/lib/mock-dynamodb.ts:224-237 | Null and unchanged exactly when no task matches. Otherwise it overlays the first match only. |
| `MockDynamoDb.MockTaskService.Delete` | src/lib/mock-dynamodb.ts:240-244 | Removes every match. It returns true exactly when the list got shorter, which is exactly when some task matched. |
| `MockDynamoDb.MockProjectService.Create` | src/lib/mock-dynamodb.ts:249-259 | Appends the created project. A fresh id is then found by `getById`. |
| `MockDynamoDb.MockProjectService.GetByUserId` | src/lib/mock-dynamodb.ts:262-264 | The projects whose `ownerId` is the user, in order. |
| `MockDynamoDb.MockProjectService.GetById` | src/lib/mock-dynamodb.ts:267-269 | The first project with that id, or null exactly when none exists. |
| `MockDynamoDb.MockProjectService.Update` | src/lib/mock-dynamodb.ts:272-285 | Null and unchanged exactly when no project has the id. Otherwise it overlays the first match only. |
| `MockDynamoDb.MockProjectService.Delete` | src/lib/mock-dynamodb.ts:288-290 | Removes every project with the id and keeps the order of the rest. |
| `MockDynamoDb.MockUserService.Create` | src/lib/mock-dynamodb.ts:367-377 | Appends the created user and returns it. |
| `MockDynamoDb.MockUserService.GetAll` | src/lib/mock-dynamodb.ts:380-382 | The active users, in order. |
| `MockDynamoDb.MockUserService.GetById` | src/lib/mock-dynamodb.ts:385-387 | The first active user with that id, or null exactly when none exists. |
| `MockDynamoDb.MockUserService.GetByEmail` | src/lib/mock-dynamodb.ts:390-392 | The first active user with that e-mail, or null exactly when none exists. |
| `MockDynamoDb.MockUserService.SearchByName` | src/lib/mock-dynamodb.ts:395-399 | The first `limit` (default 20) active users whose name contains the query, in order. |
| `MockDynamoDb.MockUserService.Update` | src/lib/mock-dynamodb.ts:402-415 | Null and unchanged exactly when no user has the id, active or not. Otherwise it overlays the first match only. |
| `MockDynamoDb.MockUserService.Delete` | src/lib/mock-dynamodb.ts:418-431 | False and unchanged exactly when no user has the id. Otherwise it deactivates the first match only; for a unique id, `getById` then returns null. |
| `MockDynamoDb.MockUserService.GetAvailableMembers` | src/lib/mock-dynamodb.ts:434-438 | Ignores the project and returns all active users. |
| `Export.StatusLabel` | src/lib/export.ts:39-52 | Known statuses map to their Japanese labels; any other status is returned as is. |
| `Export.PriorityLabel` | src/lib/export.ts:55-68 | Known priorities map to their labels; any other priority is returned as is. |
| `Export.StatusLabelsDistinct` | src/lib/export.ts:39-52 | Distinct known statuses get distinct labels. |
| `Export.PriorityLabelsDistinct` | src/lib/export.ts:55-68 | Distinct known priorities get distinct labels. |
| `Export.DateString` | src/lib/export.ts:71-73 | A missing or empty date gives `-`; any other date gives its locale rendering. |
| `Export.OrElse` | src/lib/export.ts:81-84 | `x \|\| fallback` on optional strings. |
| `Export.JoinTags` | src/lib/export.ts:90 | `tags.join(', ')`: empty for no tags, the tag itself for one, and the tags plus two characters per separator in length. |
| `Export.JoinTagsSnoc` | src/lib/export.ts:90 | One more tag appends `", "` and that tag to the join of the others; with the empty and one-tag cases this fixes the whole join. |
| `Export.ConvertTask` | src/lib/export.ts:76-92 | Ids, title and creator are copied. A present, non-empty description or assignee is copied; a missing or empty one gives `''` or `-`. Each of the four dates is its locale rendering when present and non-empty, and `-` otherwise. Known statuses and priorities get their labels, and unknown ones are kept. The tags are `JoinTags` of the task's tags. |
| `Export.FilteredTasksExact` | src/lib/export.ts:95-120 | The three successive filters equal one filter by the conjunction of the enabled conditions. |
| `Export.FilteredTasksSpec` | src/lib/export.ts:95-120 | The result is an order-preserving subsequence. It holds exactly the tasks passing every enabled filter, and with nothing enabled it is the input. |
| `Auth.ExtractTokenFromHeader` | src/lib/auth.ts:78-83 | A token exactly when the header starts with `Bearer `, and then the header is `Bearer ` + token. |
| `Auth.ExtractBearer` | src/lib/auth.ts:78-83 | Extracting from `Bearer ` + t gives back t. |
| `Auth.ValidatePassword` | src/lib/auth.ts:108-135 | The errors are the failed rules' messages in rule order, and valid exactly when there are none. |
| `Auth.PasswordMessagesDistinct` | src/lib/auth.ts:111-129 | The five messages are distinct. |
| `Auth.PasswordErrorsAt` | src/lib/auth.ts:108-135 | A rule's message appears exactly when the rule fails. The errors are an ordered subsequence of the messages. |
| `Auth.PasswordValidExactly` | src/lib/auth.ts:131-134 | No errors exactly when all five rules hold, and at most five errors. |
| `Auth.ErrorsAreMessages` | src/lib/auth.ts:109-130 | Every error is one of the five messages. |
| `Auth.ValidateEmailShape` | src/lib/auth.ts:138-141 | The regular expression accepts exactly the strings of the form local@domain.tld, where no part contains `@` or whitespace and every part is non-empty. |
| `Auth.GenerateId` | src/lib/auth.ts:101-105 | With a prefix the id is `prefix_` + random + time; without one it is random + time. |
| `Utils.Truncate` | src/lib/utils.ts:94-97 | Short strings are kept. Longer ones are cut to `length` characters followed by `...`. |
| `Utils.GetDueDateStatus` | src/lib/utils.ts:73-80 | Overdue iff days < 0, due today iff 0, due soon iff 1..3, normal iff > 3. |
| `Utils.DueDateStatusMonotone` | src/lib/utils.ts:73-80 | Fewer days left never gives a less urgent status. |
| `Utils.RelativeBucket` | src/lib/utils.ts:37-59 | Each bucket holds exactly its range of seconds, with the floored count in 1..59, 1..23 or 1..6. |
| `Utils.FormatRelativeTime` | src/lib/utils.ts:37-62 | Under a minute gives `たった今`. A week or more gives the formatted date. |
| `Utils.RemoveEmptyValues` | src/lib/utils.ts:110-117 | The loop keeps exactly the entries that are not null, undefined or `''`, with their values: the result is `NonEmptyPart` of the input. |
| `Utils.RemoveEmptyValuesIdempotent` | src/lib/utils.ts:110-117 | Removing empty values twice is the same as once. |
| `Utils.Swap` | src/lib/utils.ts:104 | The destructuring swap exchanges two positions and keeps the rest. |
| `Utils.SwapPermutes` | src/lib/utils.ts:104 | A swap keeps the multiset of elements. |
| `Utils.ShuffledPermutes` | src/lib/utils.ts:100-107 | Any sequence of swaps keeps the multiset of elements. |
| `Utils.SwapInPlace` | src/lib/utils.ts:104 | The array after the swap is `Swap` of the array before. |
| `Utils.Shuffle` | src/lib/utils.ts:100-107 | The Fisher-Yates loop over a copy returns the specified swap sequence's result, a permutation of the input of the same length. |
| `Notifications.MarkRead` | src/app/notifications/page.tsx:212-218 | Marks read exactly the notifications with that id, keeping all others and the order. |
| `Notifications.MarkAllRead` | src/app/notifications/page.tsx:222-223 | Marks every notification read and changes nothing else. |
| `Notifications.FilterTabs` | src/app/notifications/page.tsx:199-210 | `all` shows everything. `unread` and `read` split the list, and the unread count plus the read tab's size is the total. |
| `Notifications.MarkReadIdempotent` | src/app/notifications/page.tsx:212-218 | Marking the same id read twice equals once. |
| `Notifications.MarkAllReadClears` | src/app/notifications/page.tsx:222-223 | After marking all read the unread count is 0 and the read tab shows everything. |
| `Notifications.MarkReadCount` | src/app/notifications/page.tsx:210-218 | Marking read never raises the unread count, and lowers it when an unread notification had that id. |
| `Notifications.NotificationsPage.SetFilter` | src/app/notifications/page.tsx:36 | Only the filter changes. |
| `Notifications.NotificationsPage.MarkAsRead` | src/app/notifications/page.tsx:212-220 | The list becomes `MarkRead` of the old list, and nothing else changes. |
| `Notifications.NotificationsPage.MarkAllAsRead` | src/app/notifications/page.tsx:222-226 | The list becomes `MarkAllRead` of the old list, and the unread count is 0. |
| `Notifications.NotificationsPage.NotificationClick` | src/app/notifications/page.tsx:228-235 | An unread notification is marked read. The clicked notification is selected and the detail modal opens. |
| `Invitations.Tabs` | src/app/invitations/page.tsx:260-275 | `all` shows everything and every invitation is in its direction's tab. `pending` shows only pending ones, sent + received is the total, and pending-received ≤ received. |
| `Invitations.PendingWithinReceived` | src/app/invitations/page.tsx:273-275 | The pending-received badge never exceeds the received count. |
| `Invitations.WithStatus` | src/app/invitations/page.tsx:277-297 | Sets the status of exactly the invitations with that id and keeps everything else. |
| `Invitations.WithStatusKeepsDirections` | src/app/invitations/page.tsx:274-275 | Accepting or declining never changes the sent or received counts. |
| `Invitations.AnswerLowersPending` | src/app/invitations/page.tsx:273-297 | Answering never raises the pending-received count, and lowers it when a pending received invitation had that id. |
| `Invitations.LocalPartPrefix` | src/app/invitations/page.tsx:319 | `email.split('@')[0]` is the longest `@`-free prefix of the e-mail. |
| `Invitations.NewInvitation` | src/app/invitations/page.tsx:305-328 | A sent, pending invitation with id `now`, expiring 7 days later. The project name comes from the project list or is `''`, and the invitee's name is the local part. |
| `Invitations.InvitationsPage.AcceptInvitation` | src/app/invitations/page.tsx:277-286 | The list becomes `WithStatus(…, accepted)`, and nothing else changes. |
| `Invitations.InvitationsPage.DeclineInvitation` | src/app/invitations/page.tsx:288-297 | The list becomes `WithStatus(…, declined)`, and nothing else changes. |
| `Invitations.InvitationsPage.SendInvitation` | src/app/invitations/page.tsx:299-341 | With no project or e-mail nothing changes. Otherwise the new invitation is prepended, and the modal and form are reset. |
| `Select.InitialSelection` | src/components/ui/Select.tsx:36-38 | An empty value selects nothing. Single mode selects the value; multiple mode selects its comma-separated parts. |
| `Select.Toggled` | src/components/ui/Select.tsx:55-57 | A selected value is removed, every copy of it. Every copy of every other value stays, in order. An unselected value is appended. |
| `Select.FilterDropsValue` | src/components/ui/Select.tsx:56 | Filtering out a value sets its count to zero and keeps the count of every other value. |
| `Select.ToggleTwice` | src/components/ui/Select.tsx:53-61 | Toggling an unselected value twice restores the selection. Toggling a selected value twice moves it to the end. |
| `Select.ChangeRoundTrip` | src/components/ui/Select.tsx:37-60 | The `onChange` string of a comma-free, non-empty selection initialises the same selection. |
| `Select.LabelOrValue` | src/components/ui/Select.tsx:73-74 | The label of the first option with the value when that label is non-empty, and the value itself otherwise or when no option has it. |
| `Select.DisplayValue` | src/components/ui/Select.tsx:68-81 | The placeholder when nothing is selected. For one selection, or the first selection in single mode, it is `LabelOrValue` (the first matching option's label). With several in multiple mode it is `n件選択中`. |
| `Select.SelectBox.ToggleOpen` | src/components/ui/Select.tsx:102 | Flips `isOpen` unless disabled, and keeps the selection. |
| `Select.SelectBox.ClickOption` | src/components/ui/Select.tsx:53-66 | Multiple mode toggles the value and reports the joined selection. Single mode selects it, reports it and closes. Disabled options do nothing. |
| `CreateProject.FindById` | src/app/projects/create/page.tsx:164 | With distinct ids, `find` by a template's id returns that template. |
| `CreateProject.FindByIdAll` | src/app/projects/create/page.tsx:193 | With distinct ids, `find` by id returns the template with that id. |
| `CreateProject.DefaultTasks` | src/app/projects/create/page.tsx:164-173 | The chosen template's default tasks, or `[]` for an unknown id. |
| `CreateProject.TemplateColor` | src/app/projects/create/page.tsx:192-198 | The chosen template's colour, or the previous colour for an unknown id. |
| `CreateProject.TemplatesShape` | src/app/projects/create/page.tsx:34-118 | The six templates have distinct ids and non-empty colours. `blank` has no default tasks and every other template has six. |
| `CreateProject.TemplateChoice` | src/app/projects/create/page.tsx:192-198 | Selecting a listed template takes its colour. Its default tasks are empty for `blank` and six otherwise. |
| `CreateProject.FormErrors` | src/app/projects/create/page.tsx:136-151 | A name error exactly when the trimmed name is empty or longer than 100 (empty takes precedence). A description error exactly when longer than 500. |
| `CreateProject.SubmitGuardWithinValidation` | src/app/projects/create/page.tsx:136-151 | A blank name always fails validation (the button guard at line 375 is implied by it). Validation passes exactly when the name is non-blank and within 100 and the description is within 500. |
| `CreateProject.Creator` | src/app/projects/create/page.tsx:174 | The user's id when non-empty, otherwise `current-user`. Never empty. |
| `CreateProject.NewProject` | src/app/projects/create/page.tsx:164-176 | The project data copies the form, takes the template's default tasks and the creator, and is stamped with `now`. |
| `CreateProject.CreateProjectForm.ValidateForm` | src/app/projects/create/page.tsx:136-151 | Sets `errors` to `FormErrors` of the form and returns whether they are empty. |
| `CreateProject.CreateProjectForm.TemplateSelect` | src/app/projects/create/page.tsx:192-198 | Sets the template and the template's colour (or keeps the colour), and changes nothing else. |
| `CreateProject.CreateProjectForm.Submit` | src/app/projects/create/page.tsx:153-190 | Validates. On errors nothing is created; otherwise it returns `NewProject` of the form and clears `loading`. |

## Left out

- The AWS SDK transport, credentials, Cognito, `TABLE_NAME` and region
  configuration are left out. `Store.Table` stands in for DynamoDB with the
  semantics the code relies on.
- Which rows a limited page holds (DynamoDB returns them in sort-key order)
  is not modelled. `Store.Lists` states that a page holds distinct matching
  rows, at most the limit, and all matching rows when fewer exist.
  Pagination (`LastEvaluatedKey`) is left out too.
- `Database.ProjectService.GetByUserId`: the membership page is a ghost
  out-parameter. The contract says the result is `ProjectsOf` some page of
  the membership rows, not which page.
- `Database.TaskService.Delete`: a delete whose request the SDK rejects for
  other reasons (network, permissions) is not modelled, so the `false`
  branch of the try/catch is unreachable in the model.
- `Database.WithErrorHandling`: a thrown value that is not an `Error`
  ("Unknown database error") is not modelled, because every failure in the
  model carries a message.
- Update expressions are not parsed from text. They are built as structured
  clauses, and lemmas tie their rendering to the source's strings.
- Timestamps are parameters: an ISO string in the data layer and an integer
  in milliseconds on the pages. `Date` parsing, `toISOString` and locale
  formatting are left out. `Export.DateString` takes the locale rendering
  as a function, and `Export.FilteredTasks` takes date parsing as a
  function.
- `Auth.GenerateId`: `Math.random().toString(36)` and
  `Date.now().toString(36)` are inputs, and `generateUserId`,
  `generateTenantId` and `generateProjectId` are this same shape with a
  fixed prefix. Base-36 formatting is not modelled.
- `Utils.Shuffle`: the random draws are the `picks` parameter, one index
  `j ≤ i` per step. Uniformity of the distribution is not modelled.
- `Utils.FormatRelativeTime`: the difference in seconds is an input
  (clock, `Math.floor` of a float division), and the `formatDate` rendering
  is a parameter. The minute, hour and day strings themselves are not
  stated.
- `src/lib/auth.ts` token verification (`verifyToken`, `verifyIdToken`),
  `saveAuthState`, `getAuthState` and `clearAuthState` are left out: they
  use Cognito and `localStorage`.
- `cn`, `formatDate`, `getDaysUntilDue`, `formatFileSize`, `deepClone`,
  `debounce` and `throttle` in `src/lib/utils.ts` are left out: they cover
  class merging, locale formatting, floating-point date arithmetic,
  logarithms and timers. `Utils.GetDueDateStatus` takes the day count as
  input.
- `exportToCSV`, `exportToExcel` and `exportToPDF` in `src/lib/export.ts`
  are left out: they call Papa, XLSX, jsPDF and the
  DOM.
- Rendering, routing, timers (`setTimeout` in the invitation page), console
  logging and the API routes under `src/app/api` are not part of this
  model. `Invitations.InvitationsPage.SendInvitation` applies the delayed
  state update at once.
- `Invitations.IsExpired` and `Invitations.CanAnswer` compare millisecond
  instants rather than parsed dates.
- The `sending`/`loading` flags of the invitation page are not modelled.
  Apart from those, the page's state is the class's fields.
- `Auth.ValidatePassword`, `CreateProject.FormErrors` and `Utils.Truncate`
  count characters as Unicode scalar values (`|s|`). JavaScript's `length`
  and `slice` count UTF-16 code units. The two agree on text without
  characters outside the Basic Multilingual Plane, such as emoji. With
  such characters the source counts more than the model: `"😀😀😀Aa1"` has
  length 9 in JavaScript but 6 in the model, and a `slice` in JavaScript
  can split a surrogate pair where the model cannot.
- `Database.Stamped`, `MockDynamoDb.Created`, `DynamoDb.Created` and every
  create built on them read the clock once. The source calls
  `getCurrentTimestamp()` or `new Date().toISOString()` twice, for
  `createdAt` and `updatedAt`. The same applies to the new invitation and
  the new project on the client pages. So the contracts'
  `createdAt == updatedAt` holds only when both reads give the same
  millisecond, which the source does not guarantee.
- `Database.ApplyUpdate`, the `Update` methods built on it,
  `DynamoDb.DynamoDBService.UpdateItem` and `Store.EntryUpdate` do not
  check that attribute names form valid expression tokens. A field name
  such as `due-date` gives `#due-date` and `:due-date`, which DynamoDB
  rejects, while the model accepts the update. Their "succeeds exactly
  when" clauses hold only for field names made of letters, digits and `_`.
- Numbers are integers (`Js.Value`'s `Num`). Floating-point values,
  `NaN` and `Infinity` are not modelled.
- `MockDynamoDb.MockUserService.SearchByName`: a user record whose `name`
  is not a string is treated as not matching. In the source,
  `user.name.includes` then throws a `TypeError`.
- `Store.Marshallable` is an assumption about the SDK: the model takes it
  that a top-level `undefined` attribute in `Item`, or in the value map,
  makes the `@aws-sdk/lib-dynamodb` call throw when `removeUndefinedValues`
  is off. No SDK version is pinned, and some releases may instead skip
  such attributes. The `Ok <==> Marshallable` clauses of
  `Store.Table.PutItem`, `DynamoDb.DynamoDBService.PutItem`,
  `Database.PutRecord` and every `Create`, and the third row of
  "## Findings", rest on it.

## Findings

| source | as written | input that shows it | evidently intended | confidence | as-written member | corrected member |
|---|---|---|---|---|---|---|
| src/lib/dynamodb.ts:196-197 | `getUserProjects` queries GSI1 with `GSI1SK = 'PROJECT#'` (equality) | any project created by `createProject`, whose `GSI1SK` is `PROJECT#<id>` with a non-empty id | a prefix match, `begins_with(GSI1SK, 'PROJECT#')`, listing the user's projects | not executed; high | `DynamoDb.UserProjectsMissCreated` | `DynamoDb.UserProjectsQueryFindsCreated` |
| src/lib/dynamodb.ts:234-236 | `getProjectTasks` queries partition `PROJECT#p` with prefix `TARGET#`, then keeps SKs starting with `TASK#` | any task from `createTask`: it lives in partition `PROJECT#p#TARGET#t` under `TASK#s`, and the two SK prefixes are disjoint, so the result is always `[]` | list the tasks of every cell of the project, one partition per target | not executed; high | `DynamoDb.ProjectTasksMissCreated` | `DynamoDb.ProjectTaskQueriesFind` |
| src/lib/dynamodb.ts:215-216 | `createTask` sets `GSI1PK`/`GSI1SK` to `undefined` when there is no assignee or no due date, and the document client has no `removeUndefinedValues` | a task with `assignees: []`: under the SDK assumption stated under "## Left out", the put throws before reaching DynamoDB | omit the index attributes (a sparse index) | not executed; medium (depends on the SDK version) | `DynamoDb.TaskItemUnsendable` | `DynamoDb.SparseTaskItemSendable` |
