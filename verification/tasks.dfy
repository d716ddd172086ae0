/** The task handlers: list, get, create, update and delete. Each handler
    is one atomic step from a store (and the request) to the next store and
    the answer. */
module TaskStore {
  import opened Wrappers
  import opened Schema
  import Collections
  import Wire

  /** The body of a create or update request; any field may be absent. */
  datatype TaskInput = TaskInput(
    title: Option<string>,
    author: Option<string>,
    description: Option<string>,
    parentId: Option<int>,
    status: Option<string>,
    priority: Option<string>,
    assignee: Option<string>)

  /** The `children_list` field of an answered task. The list and get queries
      select it as the GROUP_CONCAT of the child ids (NULL when there are
      none); create and update re-read the bare row, whose answer has no
      such field at all. */
  datatype ChildrenColumn = Absent | Queried(text: Option<string>)

  /** A task as the API answers it: the row, its `children_list` field and
      the `children` list the handler decodes from that field. */
  datatype TaskView = TaskView(task: Task, childrenList: ChildrenColumn, children: seq<Wire.JsNumber>)

  /** The `filter` query parameter of the task list. */
  datatype TaskFilter = AllTasks | RootOnly | SubtasksOnly

  /** Only the exact strings "root" and "subtasks" restrict the list. */
  function ParseFilter(query: Option<string>): (f: TaskFilter)
    ensures f == RootOnly <==> query == Some("root")
    ensures f == SubtasksOnly <==> query == Some("subtasks")
    ensures f == AllTasks <==> query != Some("root") && query != Some("subtasks")
  {
    if query == Some("root") then RootOnly
    else if query == Some("subtasks") then SubtasksOnly
    else AllTasks
  }

  /** The WHERE clause a filter adds. */
  predicate Selected(f: TaskFilter, t: Task) {
    match f
    case AllTasks => true
    case RootOnly => t.parentId.None?
    case SubtasksOnly => t.parentId.Some?
  }

  function Select(tasks: seq<Task>, f: TaskFilter): (r: seq<Task>)
    ensures forall t :: t in r <==> t in tasks && Selected(f, t)
    ensures forall t :: multiset(r)[t] == if Selected(f, t) then multiset(tasks)[t] else 0
  {
    Collections.Filter(tasks, Matching(f))
  }

  function Matching(f: TaskFilter): Task -> bool {
    (t: Task) => Selected(f, t)
  }

  /** The lookup of a task row by id: the first row in scan order carrying it. */
  function Find(tasks: seq<Task>, id: int): (r: Option<Task>)
    ensures r.Some? ==> r.value in tasks && r.value.id == id
    ensures r.None? <==> forall t :: t in tasks ==> t.id != id
  {
    if |tasks| == 0 then None
    else if tasks[0].id == id then Some(tasks[0])
    else Find(tasks[1..], id)
  }

  /** The correlated subquery behind `children`: the ids of the tasks naming
      `parent` as their parent, in scan order. */
  function ChildrenOf(tasks: seq<Task>, parent: int): (r: seq<nat>)
    ensures forall c :: c in r <==> exists t :: t in tasks && t.parentId == Some(parent) && t.id == c
    ensures |r| <= |tasks|
  {
    if |tasks| == 0 then []
    else
      assert forall t :: t in tasks <==> t == tasks[0] || t in tasks[1..];
      if tasks[0].parentId == Some(parent) then [tasks[0].id] + ChildrenOf(tasks[1..], parent)
      else ChildrenOf(tasks[1..], parent)
  }

  /** A row as the list and get handlers answer it: the children list is the
      GROUP_CONCAT column decoded by the handler, which gives back exactly
      the child ids. */
  function View(tasks: seq<Task>, t: Task): (v: TaskView)
    ensures v.task == t
    ensures v.childrenList == Queried(Wire.GroupConcat(ChildrenOf(tasks, t.id)))
    ensures v.childrenList.text.None? <==> ChildrenOf(tasks, t.id) == []
    ensures v.children == Wire.Nums(ChildrenOf(tasks, t.id))
  {
    var column := Wire.GroupConcat(ChildrenOf(tasks, t.id));
    Wire.ChildrenListRoundTrip(ChildrenOf(tasks, t.id));
    TaskView(t, Queried(column), Wire.ParseChildrenList(column))
  }

  function TasksOf(vs: seq<TaskView>): (r: seq<Task>)
    ensures |r| == |vs|
    ensures forall i :: 0 <= i < |vs| ==> r[i] == vs[i].task
  {
    seq(|vs|, i requires 0 <= i < |vs| => vs[i].task)
  }

  /** Sort key of ORDER BY created_at DESC. */
  function NewestFirstKey(t: Task): int {
    -(t.createdAt as int)
  }

  /** GET /api/tasks?filter=...: the selected tasks, newest first, each with
      its children. */
  function ListTasks(s: Store, filter: Option<string>): (r: seq<TaskView>)
    ensures forall i :: 0 <= i < |r| ==> r[i] == View(s.tasks, r[i].task)
    ensures multiset(TasksOf(r)) == multiset(Select(s.tasks, ParseFilter(filter)))
    ensures forall i, j :: 0 <= i < j < |r| ==> r[i].task.createdAt >= r[j].task.createdAt
  {
    var rows := Collections.SortBy(Select(s.tasks, ParseFilter(filter)), NewestFirstKey);
    var r := Views(s.tasks, rows);
    ViewsKeepRows(s.tasks, rows);
    r
  }

  /** Each of `rows` answered with its children. */
  function Views(tasks: seq<Task>, rows: seq<Task>): (r: seq<TaskView>)
    ensures |r| == |rows|
    ensures forall i :: 0 <= i < |r| ==> r[i] == View(tasks, rows[i])
  {
    seq(|rows|, i requires 0 <= i < |rows| => View(tasks, rows[i]))
  }

  /** Answering rows with their children keeps the rows themselves. */
  lemma ViewsKeepRows(tasks: seq<Task>, rows: seq<Task>)
    ensures TasksOf(Views(tasks, rows)) == rows
  {
    var r := Views(tasks, rows);
    assert forall i :: 0 <= i < |rows| ==> TasksOf(r)[i] == rows[i];
  }

  /** GET /api/tasks/:id: the task with its children, or nothing (the
      handler answers an empty body rather than a 404). */
  function GetTask(s: Store, id: int): (r: Option<TaskView>)
    ensures r.None? <==> forall t :: t in s.tasks ==> t.id != id
    ensures r.Some? ==> r.value.task in s.tasks && r.value.task.id == id
    ensures r.Some? ==> r.value.childrenList == Queried(Wire.GroupConcat(ChildrenOf(s.tasks, id)))
    ensures r.Some? ==> r.value.children == Wire.Nums(ChildrenOf(s.tasks, id))
  {
    match Find(s.tasks, id)
    case None => None
    case Some(t) => Some(View(s.tasks, t))
  }

  /** The seven submitted columns of `t` hold exactly the request's values,
      an absent optional field being NULL. */
  predicate Carries(t: Task, input: TaskInput) {
    && input.title == Some(t.title)
    && input.author == Some(t.author)
    && t.description == input.description
    && t.parentId == input.parentId
    && t.status == input.status
    && t.priority == input.priority
    && t.assignee == input.assignee
  }

  /** The NOT NULL check of an insert or update of a task row. */
  function CheckNotNull(input: TaskInput): (r: Option<Failure>)
    ensures r.None? <==> input.title.Some? && input.author.Some?
    ensures r.Some? ==> r.value == NotNull(if input.title.None? then "tasks.title" else "tasks.author")
  {
    if input.title.None? then Some(NotNull("tasks.title"))
    else if input.author.None? then Some(NotNull("tasks.author"))
    else None
  }

  /** POST /api/tasks. The INSERT binds every column, so an absent status or
      priority is stored as NULL rather than the schema default. The answer
      is the row read back by id without the children subquery, so it has
      no `children_list` field and its children list is always []. The
      clock is read once, so the task and its history entry share one
      timestamp. */
  function CreateTask(s: Store, input: TaskInput, elapsed: nat): (r: (Store, Result<TaskView, Failure>))
    ensures r.1.Err? <==> input.title.None? || input.author.None?
    ensures r.1.Err? ==> r.0 == s && Some(r.1.error) == CheckNotNull(input)
    ensures r.1.Ok? ==>
      var t := r.1.value.task;
      && Carries(t, input)
      && t.id == s.nextTaskId
      && t.createdAt >= s.clock
      && r.1.value.childrenList == Absent
      && r.1.value.children == []
      && r.0.tasks == s.tasks + [t]
      && r.0.history == s.history + [HistoryEntry(s.nextHistoryId, t.id, t.author, CreatedAction, t.createdAt)]
      && r.0.comments == s.comments
      && r.0.team == s.team
  {
    match CheckNotNull(input)
    case Some(failure) => (s, Err(failure))
    case None =>
      var now := s.clock + elapsed;
      var t := Task(s.nextTaskId, input.title.value, input.author.value, now,
                    input.description, input.parentId, input.status, input.priority, input.assignee);
      var entry := HistoryEntry(s.nextHistoryId, t.id, t.author, CreatedAction, now);
      var s' := s.(tasks := s.tasks + [t], nextTaskId := s.nextTaskId + 1,
                   history := s.history + [entry], nextHistoryId := s.nextHistoryId + 1,
                   clock := now);
      (s', Ok(TaskView(t, Absent, Wire.ParseChildrenList(None))))
  }

  /** The row an UPDATE leaves: the seven submitted columns replaced, `id`
      and `created_at` kept. */
  function Revise(t: Task, input: TaskInput): (r: Task)
    requires input.title.Some? && input.author.Some?
    ensures Carries(r, input) && r.id == t.id && r.createdAt == t.createdAt
  {
    t.(title := input.title.value, author := input.author.value, description := input.description,
       parentId := input.parentId, status := input.status, priority := input.priority,
       assignee := input.assignee)
  }

  /** The history user of an update: the author when it is truthy, else
      "System". The author is never NULL here (the UPDATE would have
      failed), so the fallback is taken only for the empty string. */
  function UpdateUser(author: string): (u: string)
    ensures u == SystemUser <==> author == "" || author == SystemUser
    ensures author != "" ==> u == author
  {
    if author == "" then SystemUser else author
  }

  /** PUT /api/tasks/:id. No matching row gives 404 before any constraint is
      checked; otherwise a NULL title or author fails the UPDATE. The answer
      is the re-read row, whose children list is always [] for the same
      reason as in CreateTask. */
  function UpdateTask(s: Store, id: int, input: TaskInput, elapsed: nat): (r: (Store, Result<TaskView, Failure>))
    ensures Find(s.tasks, id).None? ==> r == (s, Err(NotFound))
    ensures Find(s.tasks, id).Some? && CheckNotNull(input).Some? ==> r == (s, Err(CheckNotNull(input).value))
    ensures r.1.Ok? <==> Find(s.tasks, id).Some? && CheckNotNull(input).None?
    ensures r.1.Ok? ==>
      var t := r.1.value.task;
      && Carries(t, input)
      && t.id == id
      && t.createdAt == Find(s.tasks, id).value.createdAt
      && r.1.value.childrenList == Absent
      && r.1.value.children == []
      && |r.0.tasks| == |s.tasks|
      && (forall i :: 0 <= i < |s.tasks| ==>
            r.0.tasks[i].id == s.tasks[i].id && r.0.tasks[i].createdAt == s.tasks[i].createdAt)
      && (forall i :: 0 <= i < |s.tasks| && s.tasks[i].id != id ==> r.0.tasks[i] == s.tasks[i])
      && (forall u :: u in s.tasks && u.id != id ==> u in r.0.tasks)
      && (forall u :: u in r.0.tasks ==> (u in s.tasks && u.id != id) || (u.id == id && Carries(u, input)))
      && r.0.history == s.history + [HistoryEntry(s.nextHistoryId, id, UpdateUser(t.author), UpdatedAction, r.0.clock)]
      && r.0.clock >= s.clock
      && r.0.comments == s.comments
      && r.0.team == s.team
  {
    match Find(s.tasks, id)
    case None => (s, Err(NotFound))
    case Some(prior) =>
      match CheckNotNull(input)
      case Some(failure) => (s, Err(failure))
      case None =>
        var now := s.clock + elapsed;
        var tasks' := seq(|s.tasks|, i requires 0 <= i < |s.tasks| =>
                          if s.tasks[i].id == id then Revise(s.tasks[i], input) else s.tasks[i]);
        assert forall u :: u in s.tasks && u.id != id ==> u in tasks' by {
          forall u | u in s.tasks && u.id != id
            ensures u in tasks'
          {
            var k :| 0 <= k < |s.tasks| && s.tasks[k] == u;
            assert tasks'[k] == u;
          }
        }
        var entry := HistoryEntry(s.nextHistoryId, id, UpdateUser(input.author.value), UpdatedAction, now);
        var s' := s.(tasks := tasks', history := s.history + [entry],
                     nextHistoryId := s.nextHistoryId + 1, clock := now);
        (s', Ok(TaskView(Revise(prior, input), Absent, Wire.ParseChildrenList(None))))
  }

  /** The table after deleting the rows carrying `id`. */
  function Without(tasks: seq<Task>, id: int): (r: seq<Task>)
    ensures forall u :: u in r <==> u in tasks && u.id != id
  {
    Collections.Filter(tasks, NotId(id))
  }

  function NotId(id: int): Task -> bool {
    (u: Task) => u.id != id
  }

  /** DELETE /api/tasks/:id. The history entry, naming the task's own
      author, is written before the row goes; children, comments and
      history of the task are left in place. */
  function DeleteTask(s: Store, id: int, elapsed: nat): (r: (Store, Result<string, Failure>))
    ensures Find(s.tasks, id).None? ==> r == (s, Err(NotFound))
    ensures Find(s.tasks, id).Some? ==>
      && r.1 == Ok(DeletedMessage)
      && (forall u :: u in r.0.tasks <==> u in s.tasks && u.id != id)
      && r.0.history == s.history + [HistoryEntry(s.nextHistoryId, id, Find(s.tasks, id).value.author, DeletedAction, r.0.clock)]
      && r.0.clock >= s.clock
      && r.0.comments == s.comments
      && r.0.team == s.team
  {
    match Find(s.tasks, id)
    case None => (s, Err(NotFound))
    case Some(victim) =>
      var now := s.clock + elapsed;
      var entry := HistoryEntry(s.nextHistoryId, id, victim.author, DeletedAction, now);
      var s' := s.(tasks := Without(s.tasks, id), history := s.history + [entry],
                   nextHistoryId := s.nextHistoryId + 1, clock := now);
      (s', Ok(DeletedMessage))
  }
}
