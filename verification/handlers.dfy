/**
  The eight route handlers. Each validates its input, runs at most one SQL
  statement against the store, and answers with a JSON body. `ok` says whether
  that statement executed; a failed statement leaves the table as it was.
 */
module Handlers {
  import opened Options
  import opened Text
  import opened TaskStore

  /**
    The decoded JSON request body. A field that is absent or `null`, or a body
    that does not decode at all, is `None`: `??` and `isset` treat them alike.
   */
  datatype Body = Body(title: Option<string>, description: Option<string>)

  /** The JSON bodies the backend can answer with. */
  datatype Response =
    | NoContent                               // pre-flight: status 200, no body
    | TaskArray(tasks: seq<Task>)             // a JSON array of rows
    | UncompletedCount(count: nat)            // {"uncompleted_count": N}
    | CreateStatus(succeeded: bool)           // {"status": "success" | "error"}
    | Ack(success: bool, message: string)     // {"success": ..., "message": ...}
    | ApiRunning                              // {"message": "API is running"}

  /** What a handler sends back, together with the table afterwards. */
  datatype Reply = Reply(response: Response, store: Store)

  const IdRequired := "Task ID required"
  const TitleRequired := "Title is required"
  const InvalidId := "Invalid task ID"
  const MarkedComplete := "Task marked as complete"
  const CompleteFailed := "Failed to complete task"
  const Updated := "Task updated successfully"
  const UpdateFailed := "Failed to update task"
  const Deleted := "Task deleted"
  const DeleteFailed := "Failed to delete task"

  // ---------------------------------------------------------------------------
  // Reads: get_tasks.php, uncompleted.php, get_completed_tasks.php, count.php
  // ---------------------------------------------------------------------------

  /** `SELECT * FROM task ORDER BY created_at DESC`. */
  function GetTasks(s: Store): (r: Reply)
    ensures r.store == s
    ensures r.response.TaskArray?
    ensures multiset(r.response.tasks) == multiset(s.rows)
    ensures SortedDesc(r.response.tasks)
    ensures |s.rows| == 0 ==> r.response.tasks == []
  {
    Reply(TaskArray(SortDesc(s.rows)), s)
  }

  /** `SELECT * FROM task WHERE completed = 0 ORDER BY created_at DESC`. */
  function Uncompleted(s: Store): (r: Reply)
    ensures r.store == s
    ensures r.response.TaskArray?
    ensures forall t :: multiset(r.response.tasks)[t] == if t.completed == 0 then multiset(s.rows)[t] else 0
    ensures forall i :: 0 <= i < |r.response.tasks| ==> r.response.tasks[i].completed == 0
    ensures SortedDesc(r.response.tasks)
  {
    var rows := SortDesc(Filter(s.rows, 0));
    assert forall i :: 0 <= i < |rows| ==> rows[i] in multiset(Filter(s.rows, 0));
    Reply(TaskArray(rows), s)
  }

  /**
    `SELECT * FROM task WHERE completed = 1 ORDER BY created_at DESC`; when the
    query fails (`queryOk` false) the answer is the empty array, not an error.
   */
  function CompletedTasks(s: Store, queryOk: bool): (r: Reply)
    ensures r.store == s
    ensures r.response.TaskArray?
    ensures !queryOk ==> r.response.tasks == []
    ensures queryOk ==> forall t ::
      multiset(r.response.tasks)[t] == if t.completed == 1 then multiset(s.rows)[t] else 0
    ensures forall i :: 0 <= i < |r.response.tasks| ==> r.response.tasks[i].completed == 1
    ensures SortedDesc(r.response.tasks)
  {
    if !queryOk then Reply(TaskArray([]), s)
    else
      var rows := SortDesc(Filter(s.rows, 1));
      assert forall i :: 0 <= i < |rows| ==> rows[i] in multiset(Filter(s.rows, 1));
      Reply(TaskArray(rows), s)
  }

  /** `SELECT COUNT(*) ... WHERE completed = 0`. */
  function CountUncompleted(s: Store): (r: Reply)
    ensures r.store == s
    ensures r.response.UncompletedCount?
    ensures r.response.count <= |s.rows|
  {
    Reply(UncompletedCount(Count(s.rows, 0)), s)
  }

  /** The count equals the length of the uncompleted listing of the same table. */
  lemma CountMatchesUncompletedList(s: Store)
    ensures CountUncompleted(s).response.count == |Uncompleted(s).response.tasks|
  {
    CountIsFilterLength(s.rows, 0);
  }

  /** In a valid table the uncompleted and completed listings split the rows between them. */
  lemma ListsPartition(s: Store)
    requires Valid(s)
    ensures multiset(Uncompleted(s).response.tasks) + multiset(CompletedTasks(s, true).response.tasks)
         == multiset(s.rows)
  {
    FiltersPartition(s.rows);
  }

  // ---------------------------------------------------------------------------
  // create_task.php
  // ---------------------------------------------------------------------------

  /**
    Inserts one row; a missing title or description becomes "" with no error.
    Answers `{"status": ...}`, never the success/message shape.
   */
  function Create(s: Store, body: Body, now: int, ok: bool): (r: Reply)
    ensures r.response == CreateStatus(ok)
    ensures !ok ==> r.store == s
    ensures ok ==> r.store.rows == s.rows + [Task(s.nextId, body.title.GetOr(""), body.description.GetOr(""), 0, now)]
    ensures ok && body.title.None? ==> r.store.rows[|s.rows|].title == ""
    ensures ok && body.description.None? ==> r.store.rows[|s.rows|].description == ""
    ensures ok && Valid(s) ==> !HasId(s.rows, s.nextId)
  {
    if ok then Reply(CreateStatus(true), Insert(s, body.title.GetOr(""), body.description.GetOr(""), now))
    else Reply(CreateStatus(false), s)
  }

  /** Two identical successful creates add two rows with different ids. */
  lemma CreateNotIdempotent(s: Store, body: Body, now: int)
    ensures var s2 := Create(Create(s, body, now, true).store, body, now, true).store;
      && |s2.rows| == |s.rows| + 2
      && s2.rows[|s.rows|].id != s2.rows[|s.rows| + 1].id
      && s2.rows[|s.rows|].title == s2.rows[|s.rows| + 1].title
  {
  }

  // ---------------------------------------------------------------------------
  // complete_task.php
  // ---------------------------------------------------------------------------

  /** Sets the flag of every row whose id is `intval(id)`; no check that such a row exists. */
  function CompleteTask(s: Store, id: Option<string>, ok: bool): (r: Reply)
    ensures id.None? ==> r == Reply(Ack(false, IdRequired), s)
    ensures id.Some? && ok ==> r.response == Ack(true, MarkedComplete)
    ensures id.Some? && !ok ==> r == Reply(Ack(false, CompleteFailed), s)
    ensures r.store.nextId == s.nextId && |r.store.rows| == |s.rows|
    ensures forall i :: 0 <= i < |s.rows| ==>
      var (t, t') := (s.rows[i], r.store.rows[i]);
      && t'.id == t.id && t'.title == t.title && t'.description == t.description
      && t'.createdAt == t.createdAt
      && t'.completed == (if id.Some? && ok && t.id == IntVal(id.value) then 1 else t.completed)
  {
    if id.None? then Reply(Ack(false, IdRequired), s)
    else
      var n := IntVal(id.value);
      if ok then Reply(Ack(true, MarkedComplete), s.(rows := MarkCompleted(s.rows, n)))
      else Reply(Ack(false, CompleteFailed), s)
  }

  /** Completing an id no row carries (0 included) still reports success and changes nothing. */
  lemma CompleteMissingId(s: Store, id: string)
    requires !HasId(s.rows, IntVal(id))
    ensures CompleteTask(s, Some(id), true) == Reply(Ack(true, MarkedComplete), s)
  {
    var r := CompleteTask(s, Some(id), true).store;
    assert forall i :: 0 <= i < |s.rows| ==> r.rows[i] == s.rows[i];
    assert r.rows == s.rows;
  }

  /** Completing twice leaves the table as completing once. */
  lemma CompleteIdempotent(s: Store, id: Option<string>, ok: bool)
    ensures var once := CompleteTask(s, id, ok).store;
      CompleteTask(once, id, ok).store == once
  {
    var once := CompleteTask(s, id, ok).store;
    var twice := CompleteTask(once, id, ok).store;
    assert twice.rows == once.rows;
  }

  // ---------------------------------------------------------------------------
  // update_task.php
  // ---------------------------------------------------------------------------

  /**
    Requires an id and a present title (an empty title passes); a missing
    description is written as "". Only title and description change.
   */
  function UpdateTask(s: Store, id: Option<string>, body: Body, ok: bool): (r: Reply)
    ensures id.None? ==> r == Reply(Ack(false, IdRequired), s)
    ensures id.Some? && body.title.None? ==> r == Reply(Ack(false, TitleRequired), s)
    ensures id.Some? && body.title.Some? && ok ==> r.response == Ack(true, Updated)
    ensures id.Some? && body.title.Some? && !ok ==> r == Reply(Ack(false, UpdateFailed), s)
    ensures r.store.nextId == s.nextId && |r.store.rows| == |s.rows|
    ensures forall i :: 0 <= i < |s.rows| ==>
      var (t, t') := (s.rows[i], r.store.rows[i]);
      && t'.id == t.id && t'.completed == t.completed && t'.createdAt == t.createdAt
      && if id.Some? && body.title.Some? && ok && t.id == IntVal(id.value)
         then t'.title == body.title.value && t'.description == body.description.GetOr("")
         else t' == t
  {
    if id.None? then Reply(Ack(false, IdRequired), s)
    else
      var n := IntVal(id.value);
      if body.title.None? then Reply(Ack(false, TitleRequired), s)
      else if ok then
        Reply(Ack(true, Updated), s.(rows := Rewrite(s.rows, n, body.title.value, body.description.GetOr(""))))
      else Reply(Ack(false, UpdateFailed), s)
  }

  /** An id no row carries still gets "Task updated successfully", and nothing changes. */
  lemma UpdateMissingId(s: Store, id: string, body: Body)
    requires !HasId(s.rows, IntVal(id))
    requires body.title.Some?
    ensures UpdateTask(s, Some(id), body, true) == Reply(Ack(true, Updated), s)
  {
    var r := UpdateTask(s, Some(id), body, true).store;
    assert forall i :: 0 <= i < |s.rows| ==> r.rows[i] == s.rows[i];
    assert r.rows == s.rows;
  }

  // ---------------------------------------------------------------------------
  // delete.php
  // ---------------------------------------------------------------------------

  /** The id `delete.php` works with: `intval` of the parameter, 0 when it is absent. */
  function DeleteId(id: Option<string>): (n: int)
    ensures id.None? ==> n == 0
  {
    if id.Some? then IntVal(id.value) else 0
  }

  /** Rejects ids `<= 0`; otherwise removes the rows with that id, existing or not. */
  function DeleteTask(s: Store, id: Option<string>, ok: bool): (r: Reply)
    ensures DeleteId(id) <= 0 ==> r == Reply(Ack(false, InvalidId), s)
    ensures DeleteId(id) > 0 && ok ==> r.response == Ack(true, Deleted)
    ensures DeleteId(id) > 0 && !ok ==> r == Reply(Ack(false, DeleteFailed), s)
    ensures r.store.nextId == s.nextId
    ensures forall t ::
      multiset(r.store.rows)[t] == if DeleteId(id) > 0 && ok && t.id == DeleteId(id) then 0 else multiset(s.rows)[t]
  {
    var n := DeleteId(id);
    if n <= 0 then Reply(Ack(false, InvalidId), s)
    else if ok then Reply(Ack(true, Deleted), s.(rows := RemoveId(s.rows, n)))
    else Reply(Ack(false, DeleteFailed), s)
  }

  /** On a digit-string id, delete answers "Invalid task ID" exactly when the digits denote 0. */
  lemma DeleteRejectsOnlyZero(s: Store, x: string, ok: bool)
    requires AllDigits(x)
    ensures DeleteTask(s, Some(x), ok).response == Ack(false, InvalidId) <==> DigitsValue(x) == 0
  {
    assert IntVal(x) == DigitsValue(x);
    assert |DeleteFailed| != |InvalidId|;
  }

  /** Removing an id nobody carries keeps every row, in order. */
  lemma {:induction false} RemoveAbsentId(rows: seq<Task>, n: int)
    requires forall i :: 0 <= i < |rows| ==> rows[i].id != n
    ensures RemoveId(rows, n) == rows
    decreases |rows|
  {
    if |rows| > 0 {
      RemoveAbsentId(rows[1..], n);
      assert [rows[0]] + rows[1..] == rows;
    }
  }

  /** A positive id that no row carries is reported deleted and the table is unchanged. */
  lemma DeleteMissingId(s: Store, id: string)
    requires IntVal(id) > 0 && !HasId(s.rows, IntVal(id))
    ensures DeleteTask(s, Some(id), true) == Reply(Ack(true, Deleted), s)
  {
    RemoveAbsentId(s.rows, IntVal(id));
  }

  /** Deleting the same id twice leaves the table as deleting it once. */
  lemma DeleteIdempotent(s: Store, id: Option<string>, ok: bool)
    ensures var once := DeleteTask(s, id, ok).store;
      DeleteTask(once, id, ok).store == once
  {
    var once := DeleteTask(s, id, ok).store;
    if DeleteId(id) > 0 && ok {
      RemoveAbsentId(once.rows, DeleteId(id));
    }
  }

  // ---------------------------------------------------------------------------
  // Each write is a legal step on a valid table
  // ---------------------------------------------------------------------------

  lemma CreateStep(s: Store, body: Body, now: int, ok: bool)
    requires Valid(s)
    ensures Valid(Create(s, body, now, ok).store)
    ensures Evolves(s, Create(s, body, now, ok).store)
  {
    if ok {
      AppendStep(s, body.title.GetOr(""), body.description.GetOr(""), now);
    }
  }

  lemma CompleteStep(s: Store, id: Option<string>, ok: bool)
    requires Valid(s)
    ensures Valid(CompleteTask(s, id, ok).store)
    ensures Evolves(s, CompleteTask(s, id, ok).store)
  {
    InPlaceStep(s, CompleteTask(s, id, ok).store);
  }

  lemma UpdateStep(s: Store, id: Option<string>, body: Body, ok: bool)
    requires Valid(s)
    ensures Valid(UpdateTask(s, id, body, ok).store)
    ensures Evolves(s, UpdateTask(s, id, body, ok).store)
  {
    InPlaceStep(s, UpdateTask(s, id, body, ok).store);
  }

  lemma DeleteStep(s: Store, id: Option<string>, ok: bool)
    requires Valid(s)
    ensures Valid(DeleteTask(s, id, ok).store)
    ensures Evolves(s, DeleteTask(s, id, ok).store)
  {
    var n := DeleteId(id);
    if n > 0 && ok {
      RemoveStep(s, n);
    } else {
      EvolvesRefl(s);
    }
  }

  lemma RemoveStep(s: Store, n: int)
    requires Valid(s)
    ensures Valid(s.(rows := RemoveId(s.rows, n))) && Evolves(s, s.(rows := RemoveId(s.rows, n)))
  {
    var s' := s.(rows := RemoveId(s.rows, n));
    RemoveIdUnique(s.rows, n);
    forall j | 0 <= j < |s'.rows|
      ensures s'.rows[j] in s.rows
    {
      RemoveIdKeepsOrigin(s.rows, n, j);
    }
    DropStep(s, s');
  }
}
