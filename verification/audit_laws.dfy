/** How the task handlers show up in the audit trail: every successful
    create, update and delete adds exactly one entry to the task's history,
    a failed one adds none, and a delete leaves the task's earlier history
    and its comments readable. */
module AuditLaws {
  import opened Schema
  import opened TaskStore
  import opened Activity

  /** Appending one history row adds it to exactly the listing of its task. */
  lemma HistoryAppend(s: Store, s': Store, h: HistoryEntry, taskId: int)
    requires s'.history == s.history + [h]
    ensures multiset(ListHistory(s', taskId))
         == multiset(ListHistory(s, taskId)) + (if h.taskId == taskId then multiset{h} else multiset{})
  {
    assert multiset(s'.history) == multiset(s.history) + multiset{h};
    forall x
      ensures multiset(ListHistory(s', taskId))[x]
           == (multiset(ListHistory(s, taskId)) + (if h.taskId == taskId then multiset{h} else multiset{}))[x]
    {
    }
  }

  /** A successful create adds one "created" entry by the author to the new
      task's history; a failed create leaves every history unchanged. */
  lemma CreateAudited(s: Store, input: TaskInput, elapsed: nat)
    ensures var (s', answer) := CreateTask(s, input, elapsed);
      && (answer.Err? ==> forall x :: ListHistory(s', x) == ListHistory(s, x))
      && (answer.Ok? ==>
            var t := answer.value.task;
            multiset(ListHistory(s', t.id))
              == multiset(ListHistory(s, t.id)) + multiset{HistoryEntry(s.nextHistoryId, t.id, input.author.value, CreatedAction, t.createdAt)})
  {
    var (s', answer) := CreateTask(s, input, elapsed);
    if answer.Ok? {
      var t := answer.value.task;
      HistoryAppend(s, s', s'.history[|s.history|], t.id);
    }
  }

  /** A successful update adds one "updated" entry to the task's history,
      by the author, or by "System" for an empty author; a not-found or
      failed update leaves every history unchanged. */
  lemma UpdateAudited(s: Store, id: int, input: TaskInput, elapsed: nat)
    ensures var (s', answer) := UpdateTask(s, id, input, elapsed);
      && (answer.Err? ==> forall x :: ListHistory(s', x) == ListHistory(s, x))
      && (answer.Ok? ==>
            var user := if input.author.value == "" then SystemUser else input.author.value;
            multiset(ListHistory(s', id))
              == multiset(ListHistory(s, id)) + multiset{HistoryEntry(s.nextHistoryId, id, user, UpdatedAction, s'.clock)})
  {
    var (s', answer) := UpdateTask(s, id, input, elapsed);
    if answer.Ok? {
      HistoryAppend(s, s', s'.history[|s.history|], id);
    }
  }

  /** A successful delete adds one "deleted" entry by the task's own author
      to its history, keeps every earlier entry and every comment of the
      task readable, and a not-found delete changes nothing. */
  lemma DeleteAudited(s: Store, id: int, elapsed: nat)
    ensures var (s', answer) := DeleteTask(s, id, elapsed);
      && (answer.Err? ==> s' == s)
      && (answer.Ok? ==>
            && multiset(ListHistory(s', id))
                 == multiset(ListHistory(s, id))
                    + multiset{HistoryEntry(s.nextHistoryId, id, Find(s.tasks, id).value.author, DeletedAction, s'.clock)}
            && (forall h :: h in ListHistory(s, id) ==> h in ListHistory(s', id))
            && ListComments(s', id) == ListComments(s, id))
  {
    var (s', answer) := DeleteTask(s, id, elapsed);
    if answer.Ok? {
      HistoryAppend(s, s', s'.history[|s.history|], id);
      forall h | h in ListHistory(s, id)
        ensures h in ListHistory(s', id)
      {
        assert h in s'.history;
      }
    }
  }
}
