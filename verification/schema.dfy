/** The four tables of the task store, their row types, the store-wide
    invariant the handlers keep, and the fixed texts the handlers write. */
module Schema {
  import opened Wrappers
  import Collections

  /** A row of `tasks`. `title` and `author` are NOT NULL columns; the other
      submitted columns are nullable. `createdAt` is the CURRENT_TIMESTAMP
      default, read as an abstract clock value. */
  datatype Task = Task(
    id: nat,
    title: string,
    author: string,
    createdAt: nat,
    description: Option<string>,
    parentId: Option<int>,
    status: Option<string>,
    priority: Option<string>,
    assignee: Option<string>)

  /** A row of `history`: the audit trail of task mutations. */
  datatype HistoryEntry = HistoryEntry(id: nat, taskId: int, user: string, action: string, timestamp: nat)

  /** A row of `comments`. */
  datatype Comment = Comment(id: nat, taskId: int, text: string, user: string, timestamp: nat)

  /** A row of `team_members`; `name` is UNIQUE NOT NULL. */
  datatype TeamMember = TeamMember(id: nat, name: string)

  /** The whole database. Every table is kept in rowid order, which is the
      order a full scan visits it. The `next*` fields are the AUTOINCREMENT
      counters (the id the next insert receives), and `clock` is the latest
      CURRENT_TIMESTAMP value handed out. */
  datatype Store = Store(
    tasks: seq<Task>,
    history: seq<HistoryEntry>,
    comments: seq<Comment>,
    team: seq<TeamMember>,
    nextTaskId: nat,
    nextHistoryId: nat,
    nextCommentId: nat,
    nextMemberId: nat,
    clock: nat)

  /** Why a handler failed: the 404 "Task not found" answer, or a NOT NULL
      constraint violation, which the handler answers with a 500 carrying
      the engine's message naming the column. */
  datatype Failure = NotFound | NotNull(column: string)

  /** The freshly created database: all tables empty, AUTOINCREMENT at 1. */
  const EmptyStore := Store([], [], [], [], 1, 1, 1, 1, 0)

  const CreatedAction := "Создал задачу"
  const UpdatedAction := "Обновил задачу"
  const DeletedAction := "Удалил задачу"
  /** The history user recorded for an update whose author is falsy. */
  const SystemUser := "System"
  const DeletedMessage := "Task deleted successfully"

  function TaskKey(t: Task): nat { t.id }
  function TaskStamp(t: Task): nat { t.createdAt }
  function EntryKey(h: HistoryEntry): nat { h.id }
  function EntryStamp(h: HistoryEntry): nat { h.timestamp }
  function CommentKey(c: Comment): nat { c.id }
  function CommentStamp(c: Comment): nat { c.timestamp }
  function MemberKey(m: TeamMember): nat { m.id }
  function NoStamp(m: TeamMember): nat { 0 }

  /** An AUTOINCREMENT table: ids strictly increase in rowid order, lie in
      [1, next), and no timestamp is later than the clock. */
  ghost predicate Keyed<T>(rows: seq<T>, key: T -> nat, stamp: T -> nat, next: nat, clock: nat) {
    && 0 < next
    && (forall i, j :: 0 <= i < j < |rows| ==> key(rows[i]) < key(rows[j]))
    && (forall i :: 0 <= i < |rows| ==> 0 < key(rows[i]) < next && stamp(rows[i]) <= clock)
  }

  /** The UNIQUE constraint on team member names. */
  ghost predicate NamesUnique(team: seq<TeamMember>) {
    forall i, j :: 0 <= i < j < |team| ==> team[i].name != team[j].name
  }

  /** The invariant every reachable store satisfies. */
  ghost predicate Valid(s: Store) {
    && Keyed(s.tasks, TaskKey, TaskStamp, s.nextTaskId, s.clock)
    && Keyed(s.history, EntryKey, EntryStamp, s.nextHistoryId, s.clock)
    && Keyed(s.comments, CommentKey, CommentStamp, s.nextCommentId, s.clock)
    && Keyed(s.team, MemberKey, NoStamp, s.nextMemberId, s.clock)
    && NamesUnique(s.team)
  }

  /** The freshly created database is valid, and every table starts empty. */
  lemma EmptyStoreValid()
    ensures Valid(EmptyStore)
    ensures EmptyStore.tasks == [] && EmptyStore.history == [] && EmptyStore.comments == [] && EmptyStore.team == []
  {
  }

  /** Appending the row that receives the next id and the current time keeps
      the table keyed, with both counters advanced. */
  lemma KeyedAppend<T>(rows: seq<T>, key: T -> nat, stamp: T -> nat, next: nat, clock: nat, row: T, now: nat)
    requires Keyed(rows, key, stamp, next, clock)
    requires key(row) == next && stamp(row) <= now && clock <= now
    ensures Keyed(rows + [row], key, stamp, next + 1, now)
  {
  }

  /** Advancing the clock or the counter keeps a table keyed. */
  lemma KeyedLater<T>(rows: seq<T>, key: T -> nat, stamp: T -> nat, next: nat, clock: nat, next': nat, clock': nat)
    requires Keyed(rows, key, stamp, next, clock)
    requires next <= next' && clock <= clock'
    ensures Keyed(rows, key, stamp, next', clock')
  {
  }

  /** Deleting rows keeps a table keyed. */
  lemma {:induction false} KeyedFilter<T(!new)>(rows: seq<T>, p: T -> bool, key: T -> nat, stamp: T -> nat, next: nat, clock: nat)
    requires Keyed(rows, key, stamp, next, clock)
    ensures Keyed(Collections.Filter(rows, p), key, stamp, next, clock)
    decreases |rows|
  {
    if |rows| > 0 {
      var tail := rows[1..];
      assert Keyed(tail, key, stamp, next, clock);
      KeyedFilter(tail, p, key, stamp, next, clock);
      var rest := Collections.Filter(tail, p);
      if p(rows[0]) {
        assert Collections.Filter(rows, p) == [rows[0]] + rest;
        forall y | y in rest
          ensures key(rows[0]) < key(y)
        {
          var j :| 0 <= j < |tail| && tail[j] == y;
          assert rows[j + 1] == y;
        }
        KeyedCons(rows[0], rest, key, stamp, next, clock);
      } else {
        assert Collections.Filter(rows, p) == rest;
      }
    }
  }

  lemma KeyedCons<T>(row: T, rest: seq<T>, key: T -> nat, stamp: T -> nat, next: nat, clock: nat)
    requires Keyed(rest, key, stamp, next, clock)
    requires 0 < key(row) < next && stamp(row) <= clock
    requires forall y :: y in rest ==> key(row) < key(y)
    ensures Keyed([row] + rest, key, stamp, next, clock)
  {
    var r := [row] + rest;
    forall i, j | 0 <= i < j < |r|
      ensures key(r[i]) < key(r[j])
    {
      if i == 0 {
        assert r[j] == rest[j - 1];
        assert rest[j - 1] in rest;
      } else {
        assert r[i] == rest[i - 1] && r[j] == rest[j - 1];
      }
    }
  }

  /** In a keyed table at most one row carries a given id. */
  lemma KeyedUnique<T>(rows: seq<T>, key: T -> nat, stamp: T -> nat, next: nat, clock: nat, i: int, j: int)
    requires Keyed(rows, key, stamp, next, clock)
    requires 0 <= i < |rows| && 0 <= j < |rows| && key(rows[i]) == key(rows[j])
    ensures i == j
  {
  }
}
