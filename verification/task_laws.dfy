/** Properties of the task handlers that relate several calls, or that
    hold of every store the handlers can reach. */
module TaskLaws {
  import opened Wrappers
  import opened Schema
  import opened TaskStore
  import Collections
  import Wire

  /** "root" lists exactly the tasks without a parent, "subtasks" exactly
      those with one; together they are the unfiltered list, which holds
      every task; any other filter value lists everything. */
  lemma ListFiltersPartition(s: Store)
    ensures forall t :: t in TasksOf(ListTasks(s, Some("root"))) <==> t in s.tasks && t.parentId.None?
    ensures forall t :: t in TasksOf(ListTasks(s, Some("subtasks"))) <==> t in s.tasks && t.parentId.Some?
    ensures multiset(TasksOf(ListTasks(s, None))) == multiset(s.tasks)
    ensures multiset(TasksOf(ListTasks(s, Some("root")))) + multiset(TasksOf(ListTasks(s, Some("subtasks"))))
         == multiset(TasksOf(ListTasks(s, None)))
    ensures forall q :: q != Some("root") && q != Some("subtasks") ==> ListTasks(s, q) == ListTasks(s, None)
  {
    assert ParseFilter(Some("root")) == RootOnly;
    assert ParseFilter(Some("subtasks")) == SubtasksOnly;
    assert ParseFilter(None) == AllTasks;
    var root := multiset(TasksOf(ListTasks(s, Some("root"))));
    var sub := multiset(TasksOf(ListTasks(s, Some("subtasks"))));
    var all := multiset(TasksOf(ListTasks(s, None)));
    assert root == multiset(Select(s.tasks, RootOnly));
    assert sub == multiset(Select(s.tasks, SubtasksOnly));
    assert all == multiset(Select(s.tasks, AllTasks));
    SelectPartition(s.tasks);
  }

  lemma SelectPartition(tasks: seq<Task>)
    ensures forall t :: t in multiset(Select(tasks, RootOnly)) <==> t in tasks && t.parentId.None?
    ensures forall t :: t in multiset(Select(tasks, SubtasksOnly)) <==> t in tasks && t.parentId.Some?
    ensures multiset(Select(tasks, AllTasks)) == multiset(tasks)
    ensures multiset(Select(tasks, RootOnly)) + multiset(Select(tasks, SubtasksOnly)) == multiset(tasks)
  {
    SelectAllKeeps(tasks);
    SelectSplits(tasks);
  }

  lemma SelectAllKeeps(tasks: seq<Task>)
    ensures multiset(Select(tasks, AllTasks)) == multiset(tasks)
  {
    var all := multiset(Select(tasks, AllTasks));
    forall t ensures all[t] == multiset(tasks)[t] {}
  }

  lemma SelectSplits(tasks: seq<Task>)
    ensures multiset(Select(tasks, RootOnly)) + multiset(Select(tasks, SubtasksOnly)) == multiset(tasks)
  {
    var root := multiset(Select(tasks, RootOnly));
    var sub := multiset(Select(tasks, SubtasksOnly));
    forall t
      ensures (root + sub)[t] == multiset(tasks)[t]
    {
    }
  }

  /** The children of a task in a keyed table come in increasing id order,
      so the list never repeats an id. */
  lemma {:induction false} ChildrenIncreasing(tasks: seq<Task>, parent: int, next: nat, clock: nat)
    requires Keyed(tasks, TaskKey, TaskStamp, next, clock)
    ensures forall i, j :: 0 <= i < j < |ChildrenOf(tasks, parent)| ==>
              ChildrenOf(tasks, parent)[i] < ChildrenOf(tasks, parent)[j]
    decreases |tasks|
  {
    if |tasks| > 0 {
      var tail := tasks[1..];
      assert Keyed(tail, TaskKey, TaskStamp, next, clock);
      ChildrenIncreasing(tail, parent, next, clock);
      var rest := ChildrenOf(tail, parent);
      if tasks[0].parentId == Some(parent) {
        forall k | 0 <= k < |rest|
          ensures tasks[0].id < rest[k]
        {
          assert rest[k] in rest;
          var u :| u in tail && u.parentId == Some(parent) && u.id == rest[k];
          var m :| 0 <= m < |tail| && tail[m] == u;
          assert tasks[m + 1] == u;
        }
      }
    }
  }

  /** A fetched task's children are exactly the ids of the tasks whose
      parent it is, without repetition, and [] when it has none. */
  lemma ChildrenExact(s: Store, id: int)
    requires Valid(s)
    requires GetTask(s, id).Some?
    ensures var kids := GetTask(s, id).value.children;
      && (forall n :: n in kids <==> exists u :: u in s.tasks && u.parentId == Some(id) && n == Wire.Num(u.id))
      && (kids == [] <==> forall u :: u in s.tasks ==> u.parentId != Some(id))
      && (forall i, j :: 0 <= i < j < |kids| ==> kids[i] != kids[j])
  {
    var ids := ChildrenOf(s.tasks, id);
    var kids := GetTask(s, id).value.children;
    ChildrenIncreasing(s.tasks, id, s.nextTaskId, s.clock);
    forall n
      ensures n in kids <==> exists u :: u in s.tasks && u.parentId == Some(id) && n == Wire.Num(u.id)
    {
      if n in kids {
        var k :| 0 <= k < |kids| && kids[k] == n;
        assert ids[k] in ids;
      }
      if exists u :: u in s.tasks && u.parentId == Some(id) && n == Wire.Num(u.id) {
        var u :| u in s.tasks && u.parentId == Some(id) && n == Wire.Num(u.id);
        assert u.id in ids;
        var k :| 0 <= k < |ids| && ids[k] == u.id;
        assert kids[k] == n;
      }
    }
    if kids != [] {
      assert ids[0] in ids;
    }
    if kids == [] {
      assert ids == [];
      forall u | u in s.tasks
        ensures u.parentId != Some(id)
      {
        assert u.id !in ids;
      }
    }
  }

  /** A child added to the end of the table is added to the end of its
      parent's children. */
  lemma {:induction false} ChildrenOfAppend(tasks: seq<Task>, t: Task, parent: int)
    ensures ChildrenOf(tasks + [t], parent)
         == ChildrenOf(tasks, parent) + (if t.parentId == Some(parent) then [t.id] else [])
    decreases |tasks|
  {
    if |tasks| > 0 {
      assert (tasks + [t])[1..] == tasks[1..] + [t];
      ChildrenOfAppend(tasks[1..], t, parent);
    }
  }

  /** A successful create keeps the store valid; the new task's id was not
      in use and its timestamp is not older than any task's; and fetching
      it afterwards finds exactly the stored row. */
  lemma CreateKeepsValid(s: Store, input: TaskInput, elapsed: nat)
    requires Valid(s)
    ensures var (s', answer) := CreateTask(s, input, elapsed);
      && Valid(s')
      && (answer.Ok? ==>
           && (forall u :: u in s.tasks ==> u.id < answer.value.task.id && u.createdAt <= answer.value.task.createdAt)
           && GetTask(s', answer.value.task.id) == Some(View(s'.tasks, answer.value.task)))
  {
    var (s', answer) := CreateTask(s, input, elapsed);
    if answer.Ok? {
      var t := answer.value.task;
      KeyedAppend(s.tasks, TaskKey, TaskStamp, s.nextTaskId, s.clock, t, s'.clock);
      var entry := s'.history[|s.history|];
      KeyedAppend(s.history, EntryKey, EntryStamp, s.nextHistoryId, s.clock, entry, s'.clock);
      KeyedLater(s.comments, CommentKey, CommentStamp, s.nextCommentId, s.clock, s.nextCommentId, s'.clock);
      KeyedLater(s.team, MemberKey, NoStamp, s.nextMemberId, s.clock, s.nextMemberId, s'.clock);
      forall u | u in s.tasks
        ensures u.id < t.id && u.createdAt <= t.createdAt
      {
        var k :| 0 <= k < |s.tasks| && s.tasks[k] == u;
      }
      FindLast(s.tasks, t);
    }
  }

  /** Looking up the id of a row appended after every smaller id finds it. */
  lemma {:induction false} FindLast(tasks: seq<Task>, t: Task)
    requires forall u :: u in tasks ==> u.id != t.id
    ensures Find(tasks + [t], t.id) == Some(t)
    decreases |tasks|
  {
    if |tasks| > 0 {
      assert (tasks + [t])[1..] == tasks[1..] + [t];
      FindLast(tasks[1..], t);
    }
  }

  /** Creating a task under `parent` appends its id to the parent's
      children, as a later fetch of the parent shows. */
  lemma CreateChildAppends(s: Store, input: TaskInput, elapsed: nat, parent: int)
    requires input.parentId == Some(parent)
    requires GetTask(s, parent).Some?
    ensures var (s', answer) := CreateTask(s, input, elapsed);
      answer.Ok? ==>
        && GetTask(s', parent).Some?
        && GetTask(s', parent).value.children
           == GetTask(s, parent).value.children + [Wire.Num(answer.value.task.id)]
  {
    var (s', answer) := CreateTask(s, input, elapsed);
    if answer.Ok? {
      var t := answer.value.task;
      ChildrenOfAppend(s.tasks, t, parent);
      FindPrefix(s.tasks, [t], parent);
      var before := ChildrenOf(s.tasks, parent);
      assert Wire.Nums(before + [t.id]) == Wire.Nums(before) + [Wire.Num(t.id)];
    }
  }

  /** A lookup that succeeds on a prefix of the table is unaffected by rows
      appended after it. */
  lemma {:induction false} FindPrefix(tasks: seq<Task>, more: seq<Task>, id: int)
    requires Find(tasks, id).Some?
    ensures Find(tasks + more, id) == Find(tasks, id)
    decreases |tasks|
  {
    if tasks[0].id != id {
      assert (tasks + more)[1..] == tasks[1..] + more;
      FindPrefix(tasks[1..], more, id);
    }
  }

  /** In a keyed table a lookup finds the one row with that id. */
  lemma FindUnique(tasks: seq<Task>, next: nat, clock: nat, k: int)
    requires Keyed(tasks, TaskKey, TaskStamp, next, clock)
    requires 0 <= k < |tasks|
    ensures Find(tasks, tasks[k].id) == Some(tasks[k])
  {
    var f := Find(tasks, tasks[k].id);
    var m :| 0 <= m < |tasks| && tasks[m] == f.value;
    KeyedUnique(tasks, TaskKey, TaskStamp, next, clock, m, k);
  }

  /** The rows an update writes keep each position's id and timestamp, so
      the task table stays keyed. */
  lemma UpdatedTasksKeyed(s: Store, id: int, input: TaskInput, elapsed: nat)
    requires Valid(s)
    requires UpdateTask(s, id, input, elapsed).1.Ok?
    ensures var s' := UpdateTask(s, id, input, elapsed).0;
      && Keyed(s'.tasks, TaskKey, TaskStamp, s'.nextTaskId, s'.clock)
      && |s'.tasks| == |s.tasks|
      && (forall i :: 0 <= i < |s.tasks| ==>
            s'.tasks[i].id == s.tasks[i].id && s'.tasks[i].createdAt == s.tasks[i].createdAt)
  {
  }

  /** A successful update keeps the store valid, and a later fetch returns
      the updated row. */
  lemma UpdateKeepsValid(s: Store, id: int, input: TaskInput, elapsed: nat)
    requires Valid(s)
    ensures var (s', answer) := UpdateTask(s, id, input, elapsed);
      && Valid(s')
      && (answer.Ok? ==> GetTask(s', id).Some? && GetTask(s', id).value.task == answer.value.task)
  {
    var (s', answer) := UpdateTask(s, id, input, elapsed);
    if answer.Ok? {
      UpdatedStoreValid(s, id, input, elapsed);
      var prior := Find(s.tasks, id).value;
      var k :| 0 <= k < |s.tasks| && s.tasks[k] == prior;
      assert s'.tasks[k] == answer.value.task;
      FindUnique(s'.tasks, s'.nextTaskId, s'.clock, k);
    }
  }

  lemma UpdatedStoreValid(s: Store, id: int, input: TaskInput, elapsed: nat)
    requires Valid(s)
    requires UpdateTask(s, id, input, elapsed).1.Ok?
    ensures Valid(UpdateTask(s, id, input, elapsed).0)
  {
    var s' := UpdateTask(s, id, input, elapsed).0;
    UpdatedTasksKeyed(s, id, input, elapsed);
    var entry := s'.history[|s.history|];
    KeyedAppend(s.history, EntryKey, EntryStamp, s.nextHistoryId, s.clock, entry, s'.clock);
    KeyedLater(s.comments, CommentKey, CommentStamp, s.nextCommentId, s.clock, s.nextCommentId, s'.clock);
    KeyedLater(s.team, MemberKey, NoStamp, s.nextMemberId, s.clock, s.nextMemberId, s'.clock);
  }

  /** The update answer's children list is [] and it has no
      `children_list` field even when the task has children, which a fetch
      after the update still reports in both fields. */
  lemma UpdateAnswerOmitsChildren(s: Store, id: int, input: TaskInput, elapsed: nat, child: Task)
    requires Valid(s)
    requires child in s.tasks && child.parentId == Some(id) && child.id != id
    ensures var (s', answer) := UpdateTask(s, id, input, elapsed);
      answer.Ok? ==>
        && answer.value.children == []
        && answer.value.childrenList == Absent
        && GetTask(s', id).Some?
        && GetTask(s', id).value.children != []
        && GetTask(s', id).value.childrenList.Queried?
        && GetTask(s', id).value.childrenList.text.Some?
  {
    var (s', answer) := UpdateTask(s, id, input, elapsed);
    if answer.Ok? {
      UpdateKeepsValid(s, id, input, elapsed);
      assert child in s'.tasks;
      assert child.id in ChildrenOf(s'.tasks, id);
    }
  }

  /** Removing an id that occurs once in a keyed table removes one row. */
  lemma {:induction false} WithoutOne(tasks: seq<Task>, id: int, next: nat, clock: nat)
    requires Keyed(tasks, TaskKey, TaskStamp, next, clock)
    requires Find(tasks, id).Some?
    ensures |Without(tasks, id)| == |tasks| - 1
    decreases |tasks|
  {
    var tail := tasks[1..];
    assert Keyed(tail, TaskKey, TaskStamp, next, clock);
    if tasks[0].id == id {
      assert Collections.Filter(tasks, NotId(id)) == Collections.Filter(tail, NotId(id));
      KeepsAll(tail, id);
    } else {
      assert Collections.Filter(tasks, NotId(id)) == [tasks[0]] + Collections.Filter(tail, NotId(id));
      WithoutOne(tail, id, next, clock);
    }
  }

  lemma KeepsAll(tasks: seq<Task>, id: int)
    requires forall u :: u in tasks ==> u.id != id
    ensures Without(tasks, id) == tasks
  {
    Collections.FilterAll(tasks, NotId(id));
  }

  /** A successful delete keeps the store valid and removes exactly one
      row: afterwards the id is not found, and the deleted task's children
      still name it as their parent. */
  lemma DeleteKeepsValid(s: Store, id: int, elapsed: nat)
    requires Valid(s)
    ensures var (s', answer) := DeleteTask(s, id, elapsed);
      && Valid(s')
      && (answer.Ok? ==>
           && |s'.tasks| == |s.tasks| - 1
           && GetTask(s', id).None?
           && (forall u :: u in s.tasks && u.parentId == Some(id) && u.id != id ==> u in s'.tasks))
  {
    var (s', answer) := DeleteTask(s, id, elapsed);
    if answer.Ok? {
      KeyedFilter(s.tasks, NotId(id), TaskKey, TaskStamp, s.nextTaskId, s.clock);
      KeyedLater(s'.tasks, TaskKey, TaskStamp, s.nextTaskId, s.clock, s.nextTaskId, s'.clock);
      var entry := s'.history[|s.history|];
      KeyedAppend(s.history, EntryKey, EntryStamp, s.nextHistoryId, s.clock, entry, s'.clock);
      KeyedLater(s.comments, CommentKey, CommentStamp, s.nextCommentId, s.clock, s.nextCommentId, s'.clock);
      KeyedLater(s.team, MemberKey, NoStamp, s.nextMemberId, s.clock, s.nextMemberId, s'.clock);
      WithoutOne(s.tasks, id, s.nextTaskId, s.clock);
    }
  }
}
