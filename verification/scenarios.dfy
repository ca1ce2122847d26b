/**
  Properties that span several requests against the same table: what a
  listing shows after a create, a complete or a delete.
 */
module Scenarios {
  import opened Options
  import opened Text
  import opened TaskStore
  import opened Handlers

  /**
    A successful create puts the new row in the uncompleted listing exactly
    once, and it is the only listed row with the new id.
   */
  lemma CreateThenListedOnce(s: Store, title: string, description: string, now: int)
    requires Valid(s)
    ensures var s' := Create(s, Body(Some(title), Some(description)), now, true).store;
      var t := Task(s.nextId, title, description, 0, now);
      && multiset(Uncompleted(s').response.tasks)[t] == 1
      && forall u :: u in Uncompleted(s').response.tasks && u.id == s.nextId ==> u == t
  {
    var s' := Create(s, Body(Some(title), Some(description)), now, true).store;
    var t := Task(s.nextId, title, description, 0, now);
    var listed := Uncompleted(s').response.tasks;
    assert t !in s.rows;
    assert multiset(s'.rows)[t] == 1 by {
      assert s'.rows == s.rows + [t];
    }
    forall u | u in listed && u.id == s.nextId
      ensures u == t
    {
      assert multiset(listed)[u] > 0;
      assert u in s'.rows;
      assert u !in s.rows;
    }
  }

  /**
    Completing an uncompleted row by its id moves it: it leaves the
    uncompleted listing, appears flagged in the completed listing, and the
    uncompleted count drops by exactly one.
   */
  lemma CompleteMovesTask(s: Store, k: int)
    requires Valid(s) && 0 <= k < |s.rows| && s.rows[k].completed == 0
    ensures var t := s.rows[k];
      var s' := CompleteTask(s, Some(NatToString(t.id)), true).store;
      && t.(completed := 1) in CompletedTasks(s', true).response.tasks
      && (forall u :: u in Uncompleted(s').response.tasks ==> u.id != t.id)
      && CountUncompleted(s').response.count + 1 == CountUncompleted(s).response.count
  {
    var t := s.rows[k];
    IntValOfNatToString(t.id);
    assert CompleteTask(s, Some(NatToString(t.id)), true).store == Marked(s, k);
    MarkedIsCompleted(s, k);
    MarkedNotUncompleted(s, k);
    CountAfterMark(s.rows, k);
  }

  /** The table after `UPDATE task SET completed = 1` on row `k`'s id. */
  function Marked(s: Store, k: int): Store
    requires 0 <= k < |s.rows|
  {
    s.(rows := MarkCompleted(s.rows, s.rows[k].id))
  }

  lemma MarkedIsCompleted(s: Store, k: int)
    requires 0 <= k < |s.rows|
    ensures s.rows[k].(completed := 1) in CompletedTasks(Marked(s, k), true).response.tasks
  {
    var m := Marked(s, k);
    assert m.rows[k] == s.rows[k].(completed := 1);
    assert multiset(CompletedTasks(m, true).response.tasks)[m.rows[k]] > 0;
  }

  lemma MarkedNotUncompleted(s: Store, k: int)
    requires 0 <= k < |s.rows|
    ensures forall u :: u in Uncompleted(Marked(s, k)).response.tasks ==> u.id != s.rows[k].id
  {
    var m := Marked(s, k);
    MarkedFlagged(s, k);
    forall u | u in Uncompleted(m).response.tasks
      ensures u.id != s.rows[k].id
    {
      ListedUncompletedIsStored(m, u);
    }
  }

  lemma MarkedFlagged(s: Store, k: int)
    requires 0 <= k < |s.rows|
    ensures forall u :: u in Marked(s, k).rows && u.id == s.rows[k].id ==> u.completed == 1
  {
  }

  /** A row the uncompleted listing shows is a stored row with flag 0. */
  lemma ListedUncompletedIsStored(s: Store, u: Task)
    requires u in Uncompleted(s).response.tasks
    ensures u in s.rows && u.completed == 0
  {
    assert multiset(Uncompleted(s).response.tasks)[u] > 0;
  }

  /**
    Deleting a positive id removes it from both listings, and deleting it
    again still reports success and changes nothing.
   */
  lemma DeleteRemovesFromBoth(s: Store, n: nat)
    requires n > 0
    ensures var s' := DeleteTask(s, Some(NatToString(n)), true).store;
      && (forall u :: u in Uncompleted(s').response.tasks ==> u.id != n)
      && (forall u :: u in CompletedTasks(s', true).response.tasks ==> u.id != n)
      && DeleteTask(s', Some(NatToString(n)), true) == Reply(Ack(true, Deleted), s')
  {
    IntValOfNatToString(n);
    var s' := DeleteTask(s, Some(NatToString(n)), true).store;
    forall u | u in Uncompleted(s').response.tasks
      ensures u.id != n
    {
      assert multiset(Uncompleted(s').response.tasks)[u] > 0;
    }
    forall u | u in CompletedTasks(s', true).response.tasks
      ensures u.id != n
    {
      assert multiset(CompletedTasks(s', true).response.tasks)[u] > 0;
    }
    DeleteIdempotent(s, Some(NatToString(n)), true);
  }
}
