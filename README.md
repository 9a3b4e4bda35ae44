# goji-rbac core, modelled in Dafny

This project models the role-based access control core of the Go library
goji-rbac (`rbac.go` and `item.go`). The library keeps three tables in a SQL database:

- `rbacitem`: the items, each a role, task or operation;
- `rbacitemchild`: the parent -> child edges of the item hierarchy;
- `rbacassignment`: the grants of an item to a user.

On these tables it offers:

- **CheckAccess**: does a user hold an item, directly or through at most four
  child edges below an assigned item? The walk is depth-first and
  depth-bounded, and it reports an error instead of a denial when it goes too
  deep.
- **Query / BatchQuery**: the items directly assigned to one user, or to each
  user of a list, optionally filtered by item type.
- **Sync**: make a user's assignments exactly a given list, inside one
  transaction.
- **Assign, Revoke, AddItemChild, RemoveItemChild**: direct writes.
- **Items**: `NewItem`, `LoadItem`, `validate`, `Insert`, `Delete`, and the child
  read `LoadChildren`, both as a free function and as the caching method on an item.

The database is a class, `Store.Db`, whose three fields the write operations
update in place. Its invariant `Valid()` says:

- the unique keys on (parent, child) and (item_name, user_id) hold;
- no edge links an item to itself.

The read paths are functions and read-only methods over a value snapshot,
`Types.Tables`.

Every statement the library sends to the database can fail. The model makes
this failure an explicit parameter: an `Option<string>` holding the message the
store reports. For the child reads of the access walk it is a map from parent
name to message. Each operation's contract covers its error paths as well as
its success path.

Results of SQL reads without `ORDER BY` are taken in table (insertion) order.

The module `Scenarios` replays the tests of `rbac_test.go` on the model. It also
holds concrete cases of the depth guard, of the order of the walk, and of the
`Insert` defect listed under Findings.

In a few places the code does less than a caller of such a library would
expect. The model follows the code:

- **BatchQuery with a repeated user.** The name -> index map keeps a repeated
  user's last index, so only that entry is filled; earlier entries for the same
  user stay empty. The entries are therefore not always "one Query per
  requested user". The contract is `Query.Answers`.
- **Order of the walk.** The walk tries the assignments in order and stops at
  the first error. A failing read below an earlier grant therefore hides a
  later direct grant (`Scenarios.ErrorBeforeGrant`). The answer is not
  independent of evaluation order when errors occur.
- **Depth bound.** The bound is checked before a node's children are read, at
  levels 0 to 3. A target four edges below an assigned item is still found
  (`Scenarios.DepthFound`). The depth error is raised only when the walk must
  read the children of a node four edges down.
- **Self links.** `AddItemChild`'s self check (rbac.go:68-70) is unreachable. For
  `item == child`, the `COUNT(*) ... WHERE name = ? OR name = ?` check counts one
  row, so the call already fails with "item or child not found". Self links are
  refused either way.
- **Swallowed error.** `Insert` drops the error of its uniqueness lookup (see
  Findings), although a caller expects every failure to be returned.

## Model

| member | source | states |
|---|---|---|
| Store.AssignedToMembers | rbac.go:192 | the assignment read returns exactly the items of the user's rows |
| Store.AssignedToNoDup | rbac.go:192 | with the (item_name, user_id) unique key, no item is read twice |
| Seqs.IndexOf | rbac.go:200 | the lookup IndexOfString: -1 exactly when the name is absent, otherwise the first index holding it |
| Seqs.MinusMembers | rbac.go:199-209 | a name is in the difference exactly when it is in the first list and not in the second |
| Seqs.MinusNoDup | rbac.go:205-209 | the difference of a duplicate-free list is duplicate-free |
| Seqs.MinusEmptyBothWays | rbac.go:211 | both differences are empty exactly when the two lists hold the same names |
| Rbac.RemoveFirst | rbac.go:53 | `DELETE ... LIMIT 1`: the first matching row is dropped: one row fewer when there is one, every other row kept, nothing added |
| Rbac.RemoveFirstCount | rbac.go:53 | exactly one occurrence is deleted: as multisets, the new table is the old one minus that row |
| Rbac.RemoveFirstNoDup | rbac.go:53 | on a duplicate-free table, the deleted row no longer occurs and the table stays duplicate-free |
| Rbac.RemoveAll | rbac.go:80 | an unlimited `DELETE`: exactly the rows different from the deleted one remain |
| Rbac.RemoveAllNoDup | rbac.go:80 | the unlimited delete keeps a table duplicate-free |
| Rbac.Assign | rbac.go:47-50 | `INSERT IGNORE`: on success the row is present, appended only when new; a store error changes nothing; the unique key holds |
| Rbac.Revoke | rbac.go:52-55 | on success the grant is gone and at most one row was deleted; a store error changes nothing |
| Rbac.CountNamed | rbac.go:58-59 | the count is 2 exactly when both names are stored and differ |
| Rbac.AddItemChild | rbac.go:57-77 | succeeds exactly when no statement fails, both items exist and they differ; "item or child not found" for a missing item and for a self link; the store's error of the count and of the insert; the edge is added once; no self edge ever enters the table |
| Rbac.RemoveItemChild | rbac.go:79-82 | on success exactly the other edges remain; a store error changes nothing |
| Items.LoadChildren | item.go:56-65 | fails exactly when the read fails, with the store's message |
| Items.ChildRowsMembers | item.go:58-59 | a child is listed exactly when an edge from the parent leads to a stored item, with that item's columns |
| Items.ChildRowsNoDup | item.go:58-59 | with the (parent, child) unique key, no child is listed twice |
| Items.LoadChildrenExact | item.go:56-65 | a successful read lists exactly the stored children, each once, and nothing for a name that is no parent |
| Items.LoadItem | item.go:17-24 | the stored item with that name and its columns; no row is an error; the store's error passes through |
| Items.Item.constructor | item.go:10-15 | NewItem sets name and type, empty description, children not loaded |
| Items.Item.Validate | item.go:26-42 | "Name is required" for an empty name, "Duplicate Name" for a stored one, no problem exactly for a new non-empty name, the lookup's error otherwise |
| Items.Item.LoadChildren | item.go:44-54 | loads once: loaded children are kept; otherwise the store's error, or the read's rows (nil when there are none, so an empty list is read again next time) |
| Items.Item.Insert | item.go:68-87 | as written: the validation errors and the insert error; a failed lookup returns nil and stores nothing; success stores the row |
| Items.Item.InsertChecked | item.go:68-87 | corrected: nil exactly when the row was stored, and LoadItem then reads the item back; a failed lookup returns its error |
| Items.Item.Delete | item.go:89-99 | "no name" for an empty name; otherwise removes exactly that item row, leaving edges and assignments |
| Access.CheckAccess | rbac.go:84-88 | a failed assignment read is returned; no assignment denies; a direct first grant grants |
| Access.CheckChildrenMeetsSpec | rbac.go:91-115 | one call of checkChildrenRecursively: a grant is a real path of at most 4 - level edges; a denial means no such path and no chain that long; a depth error means such a chain exists; other errors are the store's; with all reads succeeding and no such chain, the answer is exactly reachability |
| Access.CheckEachMeetsSpec | rbac.go:101-114 | the same, for the loop over a list of children |
| Access.CheckAssignedMeetsSpec | rbac.go:117-132 | the same, for the loop over the user's assigned items |
| Access.CheckAccessMeetsSpec | rbac.go:84-133 | true only when the user holds the item (assigned, or 1 to 4 edges below an assigned item); false only when the user does not and no assigned item starts a chain of 4 edges; a depth error only when one does; with every read succeeding and no such chain, exactly whether the user holds the item |
| Access.GrantNeverDenied | rbac.go:117-121 | an item assigned to the user is never answered with false, and is answered with true when every read succeeds and no assigned item is over-deep |
| Access.DeepFromShorter | rbac.go:92-94 | a chain of n edges contains chains of every shorter length |
| Access.DeepViaShorter | rbac.go:92-94 | the same, from a list of children |
| Access.ReachesThenDeep | rbac.go:92-94 | a node that reaches q starts chains one edge longer than q does |
| Access.ReachesViaThenDeep | rbac.go:92-94 | the same, from a list of children |
| Access.CycleIsDeep | rbac.go:92-94 | a node on a cycle starts chains of every length |
| Access.CycleNeverDenies | rbac.go:92-94 | with an assigned item on a cycle, CheckAccess terminates and never answers false: it grants or reports an error |
| Query.Query | rbac.go:135-151 | fails exactly when the read fails, with the store's message |
| Query.SelectedMembers | rbac.go:137-141 | a name is selected exactly when it is assigned to the user, stored, and of the requested type (any type for TypeAny) |
| Query.SelectedNoDup | rbac.go:137-147 | each name is listed once |
| Query.QueryExact | rbac.go:135-151 | Query lists exactly the user's directly assigned stored items of the type, each once, and is an empty list when nothing matches |
| Query.BatchRows | rbac.go:165-170 | every batch row belongs to a requested user |
| Query.BatchRowsOfUser | rbac.go:165-183 | the batch rows of one requested user are exactly what Query selects for that user, in order |
| Query.GroupedStep | rbac.go:181-182 | appending a row's name at its user's last index extends the grouping by one row |
| Query.GroupedAnswers | rbac.go:175-183 | the grouped entries answer, at each user's last index, what Query returns for that user; other entries are empty |
| Query.AnswersDistinct | rbac.go:159-162 | with no repeated user, entry i is exactly Query for user i |
| Query.LastIndexMap | rbac.go:159-162 | the map holds exactly the requested users, each at the last index where it occurs |
| Query.LastIndexAt | rbac.go:181 | the user of every batch row has an index in the map, and it is that user's last index |
| Query.GroupRows | rbac.go:163-183 | the scan loop groups the rows by the map's index |
| Query.BatchQuery | rbac.go:153-188 | no users gives an empty result and no query; otherwise fails exactly when the read fails; on success one entry per requested index, each meeting Answers |
| Reconcile.Difference | rbac.go:199-209 | the loop computes the ordered difference: exactly the names of the first list missing from the second |
| Reconcile.DropItemsMembers | rbac.go:225 | the DELETE removes exactly the user's rows naming a listed item |
| Reconcile.DropItemsNoDup | rbac.go:225 | the DELETE keeps the table duplicate-free |
| Reconcile.DropNothing | rbac.go:224 | a DELETE of no names changes nothing, matching the skipped statement |
| Reconcile.RowsForMembers | rbac.go:237-240 | the INSERT adds exactly one row (name, user) per listed name |
| Reconcile.RowsForNoDup | rbac.go:237-240 | distinct names give distinct rows |
| Reconcile.InSyncExact | rbac.go:211 | no transaction is opened exactly when the user's items already are the requested names |
| Reconcile.ReconciledExact | rbac.go:224-251 | after the committed transaction the user holds exactly the requested names, other users' rows are unchanged, and the unique key holds |
| Reconcile.SyncSettles | rbac.go:190-254 | a second Sync with the same list opens no transaction and writes nothing |
| Reconcile.RolledBack | rbac.go:217-222 | the rollback returns the cause, joined with the rollback's own error when that fails too |
| Reconcile.Transact | rbac.go:211-251 | begin, delete, insert, commit: nil exactly when every statement succeeds; each failing statement's error (the delete and insert errors through the rollback, the begin and commit errors as they are); a name not yet held and requested twice is refused by the unique key; an error leaves the table unchanged, a commit makes the staged table visible |
| Reconcile.Sync | rbac.go:190-254 | nil exactly when the read succeeds and either nothing differs or every statement of the transaction succeeds; each failing step's error (read, begin, delete, insert, commit); an error leaves the table unchanged; success gives exactly the requested names for the user and leaves other users alone |
| Scenarios.CreateItemReplay | rbac_test.go:12-22 | the inserted item reads back with name "test" and description "desc" |
| Scenarios.AddChildReplay | rbac_test.go:24-59 | testrole's one child, testtask's two children in link order, none for testtask1 |
| Scenarios.TaskSubtree | rbac_test.go:77-78 | below checktask the walk grants exactly checkop and checkop2 |
| Scenarios.HierarchyAccess | rbac_test.go:61-97 | with the role assigned, access is granted exactly for the role, the task and the two operations |
| Scenarios.CheckAccessReplay | rbac_test.go:61-97 | false before the grant; then true, true, false, true, true |
| Scenarios.QueryReplay | rbac_test.go:129-153 | all three items for TypeAny, the two tasks for TypeTask, the role for TypeRole |
| Scenarios.BatchAnswers | rbac_test.go:116-126 | the only entries BatchQuery may return for u1, u2, u3 |
| Scenarios.BatchQueryReplay | rbac_test.go:99-127 | one role for u1 (its task filtered out), two for u2, none for u3 |
| Scenarios.SyncAndList | rbac_test.go:156-163 | a Sync succeeds and the following listing holds exactly the requested items, as many as requested |
| Scenarios.SyncGrant | rbac_test.go:174-175 | after the grant the user's listing is exactly sync1 |
| Scenarios.SyncReplay | rbac_test.go:155-185 | every Sync succeeds; the listings are sync1, then nothing, then {sync1, sync3}, then {sync2, sync3} |
| Scenarios.FailedSyncWrites | rbac.go:246-251 | a failing INSERT and a failing COMMIT of Sync are both reported, and the table stays empty |
| Scenarios.FailedLink | rbac.go:72-74 | a failing INSERT IGNORE of AddItemChild is reported, and no edge is stored |
| Scenarios.DepthFound | rbac.go:101-104 | on a chain a -> b -> c -> d -> e, e, four edges below the grant, is found |
| Scenarios.DepthGuard | rbac.go:92-94 | on the same chain, a target that is no item yields the depth error, not a denial |
| Scenarios.ErrorBeforeGrant | rbac.go:117-127 | a failing child read below the first assignment ends the check with that error, before a later direct grant |
| Scenarios.InsertLookupFailure | item.go:68-73 | with a failing lookup, Insert returns nil and stores nothing, while InsertChecked returns the error |

## Left out

- Timestamps (`created_at`, `updated_at`), the rule name and the data column are
  not modelled. They take no part in any decision of the core, and the "rule"
  support is a TODO in the source.
- The JSON tags and the `Children` field as loaded from the database are not
  modelled. Every loaded item has no children loaded.
- The `ToSql` errors of the query builder are not modelled. The builder only
  fails on malformed builder input, which the core never constructs.
- `rows.Scan` and `rows.Err` failures inside BatchQuery are not modelled
  separately. The one `fault` parameter stands for any failure of the batch
  read.
- Concurrency is not modelled: concurrent Sync calls for one user, and
  isolation of reads against an in-flight transaction.
- Clocks (`time.Now()`) are not modelled.
- The `dbx` handle and the goji `Mux` that `configure.go` stores in `opts` are
  not part of this model. The database is passed to each operation as a `Db`.
- The package `github.com/fluxxu/util` is not part of this model; its behaviour
  is assumed. `IndexOfString` returns the first index of the name, or -1
  (`Seqs.IndexOf`). A `ValidationContext` is a list of `FieldError` entries:
  `AddError` appends one, `HasError` tests for a non-empty list, and `ToError`
  turns the list into the error `Invalid`.
- The order of rows returned without `ORDER BY` is not modelled. The model
  returns every read in table order, and Query's result and each BatchQuery
  entry are stated as sequences in that order (`Query.Answers`,
  `Query.GroupedAnswers`, `Query.BatchRowsOfUser`, `Scenarios.QueryReplay`,
  `Scenarios.BatchQueryReplay`). The program does not promise this order; only
  the multiset of each list carries over.
- The schema is assumed to have unique keys on (parent, child) and
  (item_name, user_id), which `INSERT IGNORE` presupposes, and no foreign keys:
  `Delete` does not cascade. `Valid()` states this assumption.
- The table left behind by a failed rollback is not modelled. It is taken to be
  the table before the transaction, as the database's own rollback on
  disconnect gives.
- sqlx is not part of this model. Its behaviour of leaving the destination
  slice nil when no row matches is modelled by `Items.NilIfEmpty`.
- Names and user ids are compared as exact strings, everywhere. In the source the
  SQL comparisons (`WHERE name = ?`, `user_id = ?`, `IN (...)`, the joins)
  follow the columns' collation, which may ignore case and trailing spaces,
  while Go's `==` (rbac.go:102, 118) and the map lookup `iMap[user]`
  (rbac.go:181) are exact. The schema is not part of this model, so the model
  assumes a binary collation. Under a case-insensitive one, a stored user id
  "U1" answering a request for "u1" would miss `iMap` and land in entry 0, and
  `validate` would report "Duplicate Name" for "Admin" when "admin" is stored.
- The failure of a child read in CheckAccess depends only on the parent's name
  (a map from parent to message). When one walk reads the same parent twice
  (a shared child, or a cycle), both reads fail or succeed alike; a transient
  failure of only the second read cannot be expressed. No contract relies on
  this.
- Scenarios: each test is replayed on a fresh, empty database. The original
  tests share one database, which their `init` only partly clears.

## Findings

| source | as written | input that shows it | evidently intended | confidence | as-written member | corrected member |
|---|---|---|---|---|---|---|
| item.go:69-72 | when validate's uniqueness lookup fails, Insert returns nil and inserts nothing | any non-empty name with the `SELECT COUNT(*)` lookup failing ("connection refused") | return the lookup's error, so that nil always means the row was stored | not executed | Items.Item.Insert (exhibited by Scenarios.InsertLookupFailure) | Items.Item.InsertChecked |
