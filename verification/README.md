# Task store model

A Dafny model of the task-tracking backend in `api/server.js`. Behind its
HTTP route handlers sits a small store of four tables: tasks (a forest via an
optional `parent_id`), an audit history, comments, and team members. Each
handler is modelled as one atomic step. It is a pure function from the store
and the request to the next store and the answer. HTTP status codes become a
`Result` with a `Failure`:

- `NotFound` is the 404 "Task not found" answer.
- `NotNull(column)` is the 500 answer carrying the engine's NOT NULL message.

## Structure

- `wrappers.dfy`, module `Wrappers`: `Option` (SQL NULL or an absent request field) and `Result`.
- `collections.dfy`, module `Collections`:
  - `Filter` for a WHERE clause;
  - `SortBy` for ORDER BY on a timestamp, as an insertion sort proved sorted and a permutation;
  - `LexLe` and `SortNames` for ORDER BY on text under SQLite's BINARY collation. That is code-point lexicographic order, with a proper prefix first.
- `wire.dfy`, module `Wire`: how the `children` list travels. `GROUP_CONCAT(child.id)` renders the ids as one comma-joined decimal string, or NULL when there are none. The handler then splits it on `,` and applies `parseInt` to each piece. The module proves that this round trip returns exactly the ids.
- `schema.dfy`, module `Schema`:
  - the row types;
  - the `Store`, with every table a sequence in rowid (scan) order, the AUTOINCREMENT counters, and an abstract clock;
  - the invariant `Valid`: ids strictly increase, lie below the counter, and no timestamp is later than the clock; team names are unique;
  - the fixed action texts.
- `tasks.dfy`, module `TaskStore`: list, get, create, update and delete of tasks.
- `task_laws.dfy`, module `TaskLaws`: the list filters partition the table; children are exact; every handler keeps `Valid`; lookups after a mutation.
- `activity.dfy`, module `Activity`: the history list, the comment list, and adding a comment.
- `audit_laws.dfy`, module `AuditLaws`: each successful mutation adds exactly one history entry, and a failed one adds none.
- `reference.dfy`, module `ReferenceLists`: team seeding and listing, and the status and priority option lists.

## Where the behaviour differs from a natural reading

The model follows the code in each of these places.

- Create binds every column explicitly, so an absent `status` or `priority` is stored as NULL. The schema defaults `'new'` and `'medium'` never apply.
- Create and update answer with the row read back by id, without the children subquery. That row has no `children_list` column, so the answer's `children` is always `[]`. This holds even when the task has children (`TaskLaws.UpdateAnswerOmitsChildren`). Only list and get compute children.
- `author || 'System'` in update can only take the `'System'` branch for an empty author. A NULL author has already failed the UPDATE's NOT NULL constraint.
- Missing `title`/`author` (or comment `text`/`user`) fails only through the NOT NULL constraint. An empty string is accepted.
- Update checks existence first. With no matching row there is no constraint check and the answer is 404. Otherwise a NULL title or author fails with the store unchanged.
- Get of a missing id answers an empty body, not a 404. It is modelled as `None`.
- Deleting a task keeps:
  - its children, which still name it as their parent;
  - its comments;
  - its history entries.

## Model

| member | source | states |
|---|---|---|
| Wire.ChildrenListRoundTrip | api/server.js:108-117 | decoding the GROUP_CONCAT text of a list of ids (split on ',' then parseInt each piece) returns exactly those ids in order, and [] for none |
| Wire.Split | api/server.js:112 | split on ',' yields at least one piece, no piece contains ',', and joining the pieces gives the input back |
| Wire.SplitJoin | api/server.js:112 | splitting a join of comma-free pieces returns the pieces |
| Wire.ParseInt | api/server.js:112 | parseInt of an empty string is NaN, of a digit string is its decimal value, of text starting with a non-digit non-sign is NaN |
| Wire.DecimalValue | api/server.js:88 | the decimal text of an id reads back as the same number |
| Wire.Decimal | api/server.js:88 | the text SQLite gives an INTEGER id inside GROUP_CONCAT is a non-empty run of decimal digits, with a leading 0 only for the id 0 |
| Wire.GroupConcat | api/server.js:88 | the aggregate is NULL iff the subquery matches no row; otherwise splitting it on ',' gives back exactly the decimal texts of the child ids, in order |
| Wire.ParseChildrenList | api/server.js:139-143 | a NULL children column decodes to [] |
| TaskStore.ChildrenOf | api/server.js:88 | an id is listed iff some task names the given parent and carries that id |
| TaskStore.View | api/server.js:108-117 | an answered task carries its `children_list` column, the GROUP_CONCAT of its child ids, which is NULL exactly when it has no children; its `children` list, decoded from that column, equals the ids of its child tasks |
| TaskStore.Find | api/server.js:257 | a lookup finds a row with that id that is in the table, and fails iff no row has that id |
| TaskStore.Select | api/server.js:94-98 | the filtered rows are exactly those passing the WHERE clause, with their multiplicities |
| TaskStore.ParseFilter | api/server.js:94-98 | the list is restricted to root tasks iff the filter is exactly "root", to subtasks iff it is exactly "subtasks", and unrestricted for any other or absent filter |
| TaskStore.ListTasks | api/server.js:83-121 | every listed task is answered with its `children_list` column and its children; the listed rows are a permutation of the filtered table; they are ordered by non-increasing created_at |
| TaskStore.GetTask | api/server.js:124-149 | nothing is answered iff no task has the id; otherwise the row with that id, its `children_list` column (the GROUP_CONCAT of its child ids) and its exact children |
| TaskStore.CheckNotNull | api/server.js:27-28 | the insert or update passes iff title and author are present; otherwise it fails naming title first, then author |
| TaskStore.CreateTask | api/server.js:152-196 | fails iff title or author is missing, leaving the store unchanged; otherwise appends one row carrying the submitted fields with the next id and a current timestamp, appends one "created" history entry by the author, leaves comments and team unchanged, and answers the row with no `children_list` field and children [] |
| TaskStore.Revise | api/server.js:203-207 | the updated row carries the seven submitted columns and keeps id and created_at |
| TaskStore.UpdateUser | api/server.js:225 | the history user is the author unless the author is empty, when it is "System" |
| TaskStore.UpdateTask | api/server.js:199-250 | a missing id answers NotFound with the store unchanged; a missing title or author on an existing row fails with the store unchanged; otherwise the table keeps its length and, position by position, every id and created_at; the row with that id carries the submitted fields, and every other row stays as it was at its position; one "updated" history entry is appended, and the answer has no `children_list` field and children [] |
| TaskStore.Without | api/server.js:281 | the rows left are exactly those with another id |
| TaskStore.DeleteTask | api/server.js:253-290 | a missing id answers NotFound with the store unchanged; otherwise one "deleted" history entry naming the task's author is appended, exactly the rows with that id are removed, and comments and team are untouched |
| TaskLaws.ListFiltersPartition | api/server.js:94-100 | "root" lists exactly the parentless tasks, "subtasks" exactly the others, the two together are the unfiltered list, which holds every task, and any other filter value lists everything |
| TaskLaws.SelectPartition | api/server.js:94-98 | the root and subtask selections partition the table as multisets |
| TaskLaws.ChildrenIncreasing | api/server.js:88 | in a valid table the children ids come in strictly increasing order, under the rowid scan order the model gives the unordered subquery |
| TaskLaws.ChildrenExact | api/server.js:128-143 | a fetched task's children are exactly the ids of the tasks naming it as parent, without repetition, and [] iff there are none |
| TaskLaws.ChildrenOfAppend | api/server.js:88 | a row appended to the table adds its id at the end of its parent's children, under the model's rowid scan order |
| TaskLaws.CreateKeepsValid | api/server.js:155-191 | create keeps the store valid; the new id was unused and larger than every id; its timestamp is not older than any task's; fetching it finds the stored row |
| TaskLaws.CreateChildAppends | api/server.js:155-164 | creating a task under an existing parent appends the new id to the parent's fetched children, at the end under the model's rowid scan order |
| TaskLaws.FindLast | api/server.js:179 | re-reading the id of a freshly appended row finds that row |
| TaskLaws.FindPrefix | api/server.js:127-131 | a lookup that succeeds is unaffected by rows appended later |
| TaskLaws.FindUnique | api/server.js:26 | in a valid table a lookup finds the one row with that id |
| TaskLaws.UpdatedTasksKeyed | api/server.js:203-207 | a successful update keeps the table's length and each position's id and created_at, and the task table stays keyed |
| TaskLaws.UpdateKeepsValid | api/server.js:203-218 | update keeps the store valid, and a fetch afterwards returns the updated row |
| TaskLaws.UpdatedStoreValid | api/server.js:203-218 | a successful update leaves every table keyed and the team names unique |
| TaskLaws.UpdateAnswerOmitsChildren | api/server.js:233-243 | when the task has a child, the update answer's children are [] and it has no `children_list` field, although a fetch afterwards answers a non-NULL `children_list` and lists the children |
| TaskLaws.WithoutOne | api/server.js:281 | deleting an id present in a valid table removes exactly one row |
| TaskLaws.KeepsAll | api/server.js:281 | deleting an absent id removes nothing |
| TaskLaws.DeleteKeepsValid | api/server.js:257-288 | delete keeps the store valid, removes exactly one row, the id is no longer found, and the task's children remain with their parent_id unchanged |
| Activity.ListHistory | api/server.js:293-307 | the listed entries are exactly the task's entries with their multiplicities, newest timestamp first |
| Activity.ListComments | api/server.js:310-324 | the listed comments are exactly the task's comments with their multiplicities, oldest timestamp first |
| Activity.AddComment | api/server.js:327-353 | fails iff text or user is missing, naming text first, with the store unchanged; otherwise appends one comment with the next id, the given task id, text and user, and a current timestamp, and answers that row, whether or not any task has that id; tasks, history and team are unchanged |
| Activity.AddCommentKeepsValid | api/server.js:49-56 | adding a comment keeps the store valid |
| Activity.AddCommentListed | api/server.js:331-336 | the added comment is the one new row of its task's comment list, whether or not the task exists |
| Activity.CommentAppend | api/server.js:313-315 | appending one comment row adds it to its own task's comment listing |
| Activity.AddCommentElsewhere | api/server.js:313-315 | adding a comment to one task leaves every other task's comment list unchanged |
| AuditLaws.HistoryAppend | api/server.js:296-298 | appending one history row adds it to the listing of its own task only |
| AuditLaws.CreateAudited | api/server.js:166-175 | a successful create adds one "created" entry by the author to the new task's history; a failed create changes no history |
| AuditLaws.UpdateAudited | api/server.js:220-230 | a successful update adds one "updated" entry by the author, or "System" for an empty author; a failed update changes no history |
| AuditLaws.DeleteAudited | api/server.js:268-288 | a successful delete adds one "deleted" entry by the task's author and keeps every earlier entry and every comment of the task readable; a not-found delete changes nothing |
| ReferenceLists.InsertOrIgnore | api/server.js:76 | the name is present afterwards; a present name changes nothing but possibly the team id counter, which never goes back; an absent one is appended with the next id; other tables are untouched |
| ReferenceLists.SeedWith | api/server.js:75-77 | after the inserts, a name is present iff it was before or was inserted; other tables are untouched |
| ReferenceLists.SeedTeam | api/server.js:65-77 | after seeding, a name is present iff it was before or is one of the seven seed names |
| ReferenceLists.SeedWithPresent | api/server.js:76 | inserting names that are all present changes nothing but the team id counter, which never goes back |
| ReferenceLists.SeedIdempotent | api/server.js:65-77 | seeding a second time leaves every table as the first seeding left it; only the team id counter may advance |
| ReferenceLists.SeedTimesOnce | api/server.js:65-77 | seeding any positive number of times equals seeding once, up to the team id counter |
| ReferenceLists.SeedTimes | api/server.js:22-77 | after k > 0 startups a name is present iff it was before or is a seed name, after none the store is as it was, and the other tables and the clock are never touched |
| ReferenceLists.InsertOrIgnoreValid | api/server.js:59-62 | the insert-or-ignore keeps the store valid, in particular the UNIQUE names |
| ReferenceLists.SeedWithValid | api/server.js:59-77 | seeding keeps the store valid |
| ReferenceLists.UniqueNameOnce | api/server.js:61 | with unique names, a present name occurs exactly once |
| ReferenceLists.ListTeam | api/server.js:356-364 | the listed names are sorted by the BINARY collation and are a permutation of the table's names |
| ReferenceLists.SeededTeamListed | api/server.js:65-77 | after seeding any positive number of times, the listed team is sorted and holds each seed name exactly once |
| ReferenceLists.OptionListsFixed | api/server.js:367-384 | the status and priority lists offer the four fixed values each, in order and all distinct; the constants it reads carry the API's displayed labels verbatim (field `caption`, since Dafny reserves `label`), which the contract does not restate |
| Collections.Filter | api/server.js:95 | the selection holds exactly the rows passing the predicate, with their multiplicities |
| Collections.FilterAppend | api/server.js:95 | a row appended to a table is appended to a selection exactly when it passes the WHERE clause |
| Collections.SortBy | api/server.js:100 | the result is ordered by the key and is a permutation of the input |
| Collections.SortNames | api/server.js:357 | the result is in collation order and is a permutation of the input |
| Collections.LexLeTotal | api/server.js:357 | any two names are comparable under the collation order |
| Collections.LexLeTransitive | api/server.js:357 | the collation order is transitive |
| Collections.LexLeAntisymmetric | api/server.js:357 | two names that each sort no later than the other are equal |
| Schema.KeyedFilter | api/server.js:281 | deleting rows keeps an AUTOINCREMENT table's ids increasing and in range |
| Schema.KeyedAppend | api/server.js:26 | appending the row with the next id and the current time keeps the table keyed |
| Schema.EmptyStoreValid | api/server.js:25-62 | the freshly created database, all four tables empty, is valid |

## Left out

- Express setup, middleware, static files, `GET /` and `listen` (api/server.js:9-12, 386-394): HTTP plumbing. Status codes are folded into `Result`/`Failure`.
- The sqlite3 connection, statement preparation and `finalize`, and callback nesting (api/server.js:15-20): driver I/O. The tables are sequences, not SQL text.
- Errors from the engine other than NOT NULL violations: disk, connectivity and the like. These cannot be produced by the model's inputs.
- History inserts that fail and are only logged (api/server.js:172-174, 226-228, 274-276). Every history append is taken to succeed.
- Interleaving of the handlers' unserialized statements. Each handler is one atomic step.
- `CURRENT_TIMESTAMP` text: it is an abstract clock. Each mutating handler takes the elapsed time as a parameter, so timestamps never decrease. Each handler reads the clock once, so a created task and its "created" history entry carry the same timestamp. In SQLite the task INSERT (api/server.js:160, default at :29) and the history INSERT (:171, default at :44) each evaluate `CURRENT_TIMESTAMP`, and the two can differ by a second.
- The unused `grouping` query parameter (api/server.js:84).
- Request values of the wrong JSON type, such as a number for `title` or an array for `filter`. Ids in the URL are taken to be integers; text ids and SQLite's type-affinity conversions are not modelled.
- The enforcement of foreign keys. SQLite leaves it off unless enabled, and the server never enables it, so dangling `parent_id` and `task_id` values are allowed, as in the source.
- Wire.ParseInt: leading white space, the `0x` prefix and the loss of precision above 2^53 are not modelled. GROUP_CONCAT of integer ids produces none of these.
- TaskStore.ChildrenOf: SQL leaves the order of GROUP_CONCAT unspecified, and the correlated subquery at api/server.js:88 and :129 has no ORDER BY. The model reads the children in scan (rowid) order. TaskLaws.ChildrenIncreasing, TaskLaws.ChildrenOfAppend and TaskLaws.CreateChildAppends state an order only under that choice; the engine does not promise it. TaskLaws.ChildrenExact states membership and no repetition, which hold in any order.
- ReferenceLists.InsertOrIgnore: an ignored insert is modelled as using up one AUTOINCREMENT id, since SQLite draws the id before the UNIQUE check. Whether the engine keeps that id used up is not promised here: the contract and the seeding laws (SeedWithPresent, SeedIdempotent, SeedTimesOnce) only say the team id counter does not go back. No handler answers a team member's id, so the counter is not observable.
- TaskStore.ListTasks, Activity.ListHistory, Activity.ListComments: ties in the ORDER BY timestamp are broken by the model's sort. Only sortedness and the permutation are stated, since the engine promises no tie order.
