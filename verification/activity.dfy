/** The history and comment handlers: reading a task's audit trail and its
    comments, and adding a comment. */
module Activity {
  import opened Wrappers
  import opened Schema
  import Collections

  function EntryFor(taskId: int): HistoryEntry -> bool {
    (h: HistoryEntry) => h.taskId == taskId
  }

  function CommentFor(taskId: int): Comment -> bool {
    (c: Comment) => c.taskId == taskId
  }

  /** Sort key of ORDER BY timestamp DESC. */
  function NewestEntryKey(h: HistoryEntry): int {
    -(h.timestamp as int)
  }

  /** Sort key of ORDER BY timestamp ASC. */
  function OldestCommentKey(c: Comment): int {
    c.timestamp
  }

  /** GET /api/tasks/:id/history: the task's entries, newest first. */
  function ListHistory(s: Store, taskId: int): (r: seq<HistoryEntry>)
    ensures forall h :: h in r <==> h in s.history && h.taskId == taskId
    ensures forall h :: multiset(r)[h] == if h.taskId == taskId then multiset(s.history)[h] else 0
    ensures forall i, j :: 0 <= i < j < |r| ==> r[i].timestamp >= r[j].timestamp
  {
    var r := Collections.SortBy(Collections.Filter(s.history, EntryFor(taskId)), NewestEntryKey);
    assert forall h :: h in r <==> h in multiset(r);
    r
  }

  /** GET /api/tasks/:id/comments: the task's comments, oldest first. */
  function ListComments(s: Store, taskId: int): (r: seq<Comment>)
    ensures forall c :: c in r <==> c in s.comments && c.taskId == taskId
    ensures forall c :: multiset(r)[c] == if c.taskId == taskId then multiset(s.comments)[c] else 0
    ensures forall i, j :: 0 <= i < j < |r| ==> r[i].timestamp <= r[j].timestamp
  {
    var r := Collections.SortBy(Collections.Filter(s.comments, CommentFor(taskId)), OldestCommentKey);
    assert forall c :: c in r <==> c in multiset(r);
    r
  }

  /** POST /api/tasks/:id/comments. `text` and `user` are NOT NULL; no
      check is made that a task with that id exists. The answer is the
      re-read comment row. */
  function AddComment(s: Store, taskId: int, text: Option<string>, user: Option<string>, elapsed: nat)
    : (r: (Store, Result<Comment, Failure>))
    ensures r.1.Err? <==> text.None? || user.None?
    ensures text.Some? && user.Some? ==> r.1.Ok? && r.0.comments == s.comments + [r.1.value]
    ensures text.None? ==> r == (s, Err(NotNull("comments.text")))
    ensures text.Some? && user.None? ==> r == (s, Err(NotNull("comments.user")))
    ensures r.1.Ok? ==>
      var c := r.1.value;
      && c == Comment(s.nextCommentId, taskId, text.value, user.value, r.0.clock)
      && r.0.clock >= s.clock
      && r.0.comments == s.comments + [c]
      && r.0.tasks == s.tasks
      && r.0.history == s.history
      && r.0.team == s.team
  {
    if text.None? then (s, Err(NotNull("comments.text")))
    else if user.None? then (s, Err(NotNull("comments.user")))
    else
      var now := s.clock + elapsed;
      var c := Comment(s.nextCommentId, taskId, text.value, user.value, now);
      (s.(comments := s.comments + [c], nextCommentId := s.nextCommentId + 1, clock := now), Ok(c))
  }

  /** Adding a comment keeps the store valid. */
  lemma AddCommentKeepsValid(s: Store, taskId: int, text: Option<string>, user: Option<string>, elapsed: nat)
    requires Valid(s)
    ensures Valid(AddComment(s, taskId, text, user, elapsed).0)
  {
    var (s', answer) := AddComment(s, taskId, text, user, elapsed);
    if answer.Ok? {
      KeyedAppend(s.comments, CommentKey, CommentStamp, s.nextCommentId, s.clock, answer.value, s'.clock);
      KeyedLater(s.tasks, TaskKey, TaskStamp, s.nextTaskId, s.clock, s.nextTaskId, s'.clock);
      KeyedLater(s.history, EntryKey, EntryStamp, s.nextHistoryId, s.clock, s.nextHistoryId, s'.clock);
      KeyedLater(s.team, MemberKey, NoStamp, s.nextMemberId, s.clock, s.nextMemberId, s'.clock);
    }
  }

  /** Appending one comment row adds it to the listing of its own task. */
  lemma CommentAppend(s: Store, s': Store, c: Comment)
    requires s'.comments == s.comments + [c]
    ensures multiset(ListComments(s', c.taskId)) == multiset(ListComments(s, c.taskId)) + multiset{c}
  {
    Collections.FilterAppend(s.comments, c, CommentFor(c.taskId));
    assert CommentFor(c.taskId)(c);
  }

  /** The new comment is the one extra row of its task's comment list,
      whether or not any task has that id. */
  lemma AddCommentListed(s: Store, taskId: int, text: Option<string>, user: Option<string>, elapsed: nat)
    ensures var (s', answer) := AddComment(s, taskId, text, user, elapsed);
      answer.Ok? ==>
        multiset(ListComments(s', taskId)) == multiset(ListComments(s, taskId)) + multiset{answer.value}
  {
    var (s', answer) := AddComment(s, taskId, text, user, elapsed);
    if answer.Ok? {
      CommentAppend(s, s', answer.value);
    }
  }

  /** Adding a comment leaves every other task's comment list as it was. */
  lemma AddCommentElsewhere(s: Store, taskId: int, text: Option<string>, user: Option<string>, elapsed: nat, other: int)
    requires other != taskId
    ensures ListComments(AddComment(s, taskId, text, user, elapsed).0, other) == ListComments(s, other)
  {
    var (s', answer) := AddComment(s, taskId, text, user, elapsed);
    if answer.Ok? {
      Collections.FilterAppend(s.comments, answer.value, CommentFor(other));
      assert !CommentFor(other)(answer.value);
      assert Collections.Filter(s'.comments, CommentFor(other)) == Collections.Filter(s.comments, CommentFor(other));
    }
  }
}
