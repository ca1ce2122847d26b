/**
  The single `task` table: rows, the auto-increment counter, and the three SQL
  shapes the handlers use on it (`WHERE completed = ?`, `ORDER BY created_at
  DESC`, `COUNT(*)`) plus the three row-level writes (`UPDATE ... SET completed`,
  `UPDATE ... SET title, description`, `DELETE`).
 */
module TaskStore {

  /**
    One row. `completed` is the stored integer column (0 or 1 in a valid store);
    `createdAt` is the creation timestamp as a number.
   */
  datatype Task = Task(id: nat, title: string, description: string, completed: int, createdAt: int)

  /** The table, in physical order, and the next AUTO_INCREMENT value. */
  datatype Store = Store(rows: seq<Task>, nextId: nat)

  /** The empty table as freshly created: AUTO_INCREMENT starts at 1. */
  const Empty := Store([], 1)

  predicate UniqueIds(rows: seq<Task>) {
    forall i, j :: 0 <= i < j < |rows| ==> rows[i].id != rows[j].id
  }

  /** Ids are unique, positive and below the counter; the flag is 0 or 1. */
  predicate Valid(s: Store) {
    && s.nextId > 0
    && UniqueIds(s.rows)
    && (forall i :: 0 <= i < |s.rows| ==> 0 < s.rows[i].id < s.nextId)
    && (forall i :: 0 <= i < |s.rows| ==> s.rows[i].completed == 0 || s.rows[i].completed == 1)
  }

  /** Some row carries `id`. */
  predicate HasId(rows: seq<Task>, id: int) {
    exists i :: 0 <= i < |rows| && rows[i].id == id
  }

  // ---------------------------------------------------------------------------
  // Reads
  // ---------------------------------------------------------------------------

  /** `WHERE completed = flag`: every matching row, each as often as it is stored, in table order. */
  function Filter(rows: seq<Task>, flag: int): (r: seq<Task>)
    ensures forall t :: multiset(r)[t] == if t.completed == flag then multiset(rows)[t] else 0
    ensures forall i :: 0 <= i < |r| ==> r[i].completed == flag
    ensures |r| <= |rows|
    decreases |rows|
  {
    if |rows| == 0 then []
    else
      assert rows == [rows[0]] + rows[1..];
      (if rows[0].completed == flag then [rows[0]] else []) + Filter(rows[1..], flag)
  }

  /** Non-increasing in `createdAt`: what `ORDER BY created_at DESC` promises. */
  predicate SortedDesc(s: seq<Task>) {
    forall i, j :: 0 <= i < j < |s| ==> s[i].createdAt >= s[j].createdAt
  }

  /** Inserts `t` ahead of the first row that is not newer than it. */
  function InsertDesc(t: Task, s: seq<Task>): (r: seq<Task>)
    ensures multiset(r) == multiset(s) + multiset{t}
    ensures |r| == |s| + 1
    decreases |s|
  {
    if |s| == 0 || t.createdAt >= s[0].createdAt then [t] + s
    else
      assert s == [s[0]] + s[1..];
      [s[0]] + InsertDesc(t, s[1..])
  }

  /** Inserting into a newest-first list keeps it newest first. */
  lemma {:induction false} InsertDescSorted(t: Task, s: seq<Task>)
    requires SortedDesc(s)
    ensures SortedDesc(InsertDesc(t, s))
    decreases |s|
  {
    if |s| == 0 || t.createdAt >= s[0].createdAt {
      assert forall j :: 0 <= j < |s| ==> s[j].createdAt <= t.createdAt by {
        assert forall j :: 0 < j < |s| ==> s[j].createdAt <= s[0].createdAt;
      }
      ConsSorted(t, s);
    } else {
      SortedTail(s);
      InsertDescSorted(t, s[1..]);
      var rest := InsertDesc(t, s[1..]);
      forall j | 0 <= j < |rest|
        ensures rest[j].createdAt <= s[0].createdAt
      {
        assert rest[j] in multiset(rest);
        if rest[j] != t {
          assert rest[j] in multiset(s[1..]);
          var k :| 0 <= k < |s[1..]| && s[1..][k] == rest[j];
          assert s[k + 1] == rest[j];
        }
      }
      ConsSorted(s[0], rest);
    }
  }

  lemma SortedTail(s: seq<Task>)
    requires SortedDesc(s) && |s| > 0
    ensures SortedDesc(s[1..])
  {
    forall i, j | 0 <= i < j < |s| - 1
      ensures s[1..][i].createdAt >= s[1..][j].createdAt
    {
      assert s[1..][i] == s[i + 1] && s[1..][j] == s[j + 1];
    }
  }

  /** A row no older than every row of a newest-first list can go in front of it. */
  lemma ConsSorted(t: Task, s: seq<Task>)
    requires SortedDesc(s)
    requires forall j :: 0 <= j < |s| ==> s[j].createdAt <= t.createdAt
    ensures SortedDesc([t] + s)
  {
    var r := [t] + s;
    forall i, j | 0 <= i < j < |r|
      ensures r[i].createdAt >= r[j].createdAt
    {
      assert r[j] == s[j - 1];
      if i > 0 {
        assert r[i] == s[i - 1];
      }
    }
  }

  /**
    `ORDER BY created_at DESC`, realised as a stable insertion sort. SQL leaves
    the order of equal timestamps open; the contract says only what SQL says.
   */
  function SortDesc(s: seq<Task>): (r: seq<Task>)
    ensures SortedDesc(r)
    ensures multiset(r) == multiset(s)
    ensures |r| == |s|
    decreases |s|
  {
    if |s| == 0 then []
    else
      assert s == [s[0]] + s[1..];
      var rest := SortDesc(s[1..]);
      InsertDescSorted(s[0], rest);
      InsertDesc(s[0], rest)
  }

  /** A list that is already in order comes back unchanged. */
  lemma {:induction false} SortDescOfSorted(s: seq<Task>)
    requires SortedDesc(s)
    ensures SortDesc(s) == s
    decreases |s|
  {
    if |s| > 0 {
      SortDescOfSorted(s[1..]);
      assert [s[0]] + s[1..] == s;
    }
  }

  /** `COUNT(*) ... WHERE completed = flag`. */
  function Count(rows: seq<Task>, flag: int): (n: nat)
    ensures n <= |rows|
    decreases |rows|
  {
    if |rows| == 0 then 0
    else (if rows[0].completed == flag then 1 else 0) + Count(rows[1..], flag)
  }

  /** The count and the filtered listing agree on how many rows match. */
  lemma {:induction false} CountIsFilterLength(rows: seq<Task>, flag: int)
    ensures Count(rows, flag) == |Filter(rows, flag)|
    decreases |rows|
  {
    if |rows| > 0 {
      CountIsFilterLength(rows[1..], flag);
    }
  }

  /** With every flag 0 or 1, the two filters split the table between them. */
  lemma FiltersPartition(rows: seq<Task>)
    requires forall i :: 0 <= i < |rows| ==> rows[i].completed == 0 || rows[i].completed == 1
    ensures multiset(Filter(rows, 0)) + multiset(Filter(rows, 1)) == multiset(rows)
  {
    forall t | true
      ensures (multiset(Filter(rows, 0)) + multiset(Filter(rows, 1)))[t] == multiset(rows)[t]
    {
      if multiset(rows)[t] > 0 {
        assert t in rows;
        var k :| 0 <= k < |rows| && rows[k] == t;
        assert t.completed == 0 || t.completed == 1;
      }
    }
  }

  // ---------------------------------------------------------------------------
  // Writes
  // ---------------------------------------------------------------------------

  /** `UPDATE task SET completed = 1 WHERE id = id`. */
  function MarkCompleted(rows: seq<Task>, id: int): (r: seq<Task>)
    ensures |r| == |rows|
    ensures forall i :: 0 <= i < |rows| && rows[i].id != id ==> r[i] == rows[i]
    ensures forall i :: 0 <= i < |rows| && rows[i].id == id ==> r[i] == rows[i].(completed := 1)
  {
    seq(|rows|, i requires 0 <= i < |rows| => if rows[i].id == id then rows[i].(completed := 1) else rows[i])
  }

  /** Marking an id no row carries changes nothing. */
  lemma MarkAbsent(rows: seq<Task>, id: int)
    requires forall i :: 0 <= i < |rows| ==> rows[i].id != id
    ensures MarkCompleted(rows, id) == rows
  {
  }

  lemma MarkTail(rows: seq<Task>, id: int)
    requires |rows| > 0
    ensures MarkCompleted(rows, id)[1..] == MarkCompleted(rows[1..], id)
  {
  }

  /** Completing the one uncompleted row with a given id lowers the uncompleted count by exactly one. */
  lemma {:induction false} CountAfterMark(rows: seq<Task>, k: int)
    requires UniqueIds(rows) && 0 <= k < |rows| && rows[k].completed == 0
    ensures Count(MarkCompleted(rows, rows[k].id), 0) + 1 == Count(rows, 0)
    decreases |rows|
  {
    var id := rows[k].id;
    var m := MarkCompleted(rows, id);
    MarkTail(rows, id);
    if k == 0 {
      assert forall i :: 0 <= i < |rows[1..]| ==> rows[1..][i].id != id by {
        assert forall i :: 0 < i < |rows| ==> rows[i].id != rows[0].id;
      }
      MarkAbsent(rows[1..], id);
    } else {
      assert rows[1..][k - 1] == rows[k];
      CountAfterMark(rows[1..], k - 1);
      assert m[0] == rows[0];
    }
  }

  /** `UPDATE task SET title = title, description = description WHERE id = id`. */
  function Rewrite(rows: seq<Task>, id: int, title: string, description: string): (r: seq<Task>)
    ensures |r| == |rows|
    ensures forall i :: 0 <= i < |rows| && rows[i].id != id ==> r[i] == rows[i]
    ensures forall i :: 0 <= i < |rows| && rows[i].id == id ==>
      r[i] == rows[i].(title := title, description := description)
  {
    seq(|rows|, i requires 0 <= i < |rows| =>
      if rows[i].id == id then rows[i].(title := title, description := description) else rows[i])
  }

  /** Writing a row's own text back under its unique id changes nothing. */
  lemma RewriteSame(rows: seq<Task>, k: int)
    requires UniqueIds(rows) && 0 <= k < |rows|
    ensures Rewrite(rows, rows[k].id, rows[k].title, rows[k].description) == rows
  {
    var r := Rewrite(rows, rows[k].id, rows[k].title, rows[k].description);
    forall i | 0 <= i < |rows|
      ensures r[i] == rows[i]
    {
      if rows[i].id == rows[k].id {
        assert i == k;
      }
    }
  }

  /** `DELETE FROM task WHERE id = id`: rows with that id go, the others stay in order. */
  function RemoveId(rows: seq<Task>, id: int): (r: seq<Task>)
    ensures forall t :: multiset(r)[t] == if t.id == id then 0 else multiset(rows)[t]
    ensures forall i :: 0 <= i < |r| ==> r[i].id != id
    ensures |r| <= |rows|
    decreases |rows|
  {
    if |rows| == 0 then []
    else
      assert rows == [rows[0]] + rows[1..];
      (if rows[0].id == id then [] else [rows[0]]) + RemoveId(rows[1..], id)
  }

  /** A row that survives a `DELETE` was already in the table. */
  lemma RemoveIdKeepsOrigin(rows: seq<Task>, id: int, j: int)
    requires 0 <= j < |RemoveId(rows, id)|
    ensures RemoveId(rows, id)[j] in rows
  {
    var t := RemoveId(rows, id)[j];
    assert t in multiset(RemoveId(rows, id));
  }

  /** Every row `RemoveId` keeps carries an id the table already had, so ids stay unique. */
  lemma {:induction false} RemoveIdUnique(rows: seq<Task>, id: int)
    requires UniqueIds(rows)
    ensures UniqueIds(RemoveId(rows, id))
    decreases |rows|
  {
    if |rows| > 0 {
      RemoveIdUnique(rows[1..], id);
      if rows[0].id != id {
        RestAvoidsHead(rows, id);
        ConsUnique(rows[0], RemoveId(rows[1..], id));
      }
    }
  }

  lemma RestAvoidsHead(rows: seq<Task>, id: int)
    requires UniqueIds(rows) && |rows| > 0
    ensures forall j :: 0 <= j < |RemoveId(rows[1..], id)| ==> RemoveId(rows[1..], id)[j].id != rows[0].id
  {
    var rest := RemoveId(rows[1..], id);
    forall j | 0 <= j < |rest|
      ensures rest[j].id != rows[0].id
    {
      RemoveIdKeepsOrigin(rows[1..], id, j);
      var k :| 0 <= k < |rows[1..]| && rows[1..][k] == rest[j];
      assert rows[k + 1] == rest[j];
    }
  }

  lemma ConsUnique(t: Task, rest: seq<Task>)
    requires UniqueIds(rest)
    requires forall j :: 0 <= j < |rest| ==> rest[j].id != t.id
    ensures UniqueIds([t] + rest)
  {
    var r := [t] + rest;
    forall i, j | 0 <= i < j < |r|
      ensures r[i].id != r[j].id
    {
      assert r[j] == rest[j - 1];
      if i > 0 {
        assert r[i] == rest[i - 1];
      }
    }
  }

  /** `INSERT INTO task (title, description)`: a fresh id, flag 0, stamped `now`. */
  function Insert(s: Store, title: string, description: string, now: int): (r: Store)
    ensures s.rows <= r.rows && |r.rows| == |s.rows| + 1
    ensures var t := r.rows[|s.rows|];
      && t.id == s.nextId && t.title == title && t.description == description
      && t.completed == 0 && t.createdAt == now
    ensures r.nextId == s.nextId + 1
    ensures Valid(s) ==> !HasId(s.rows, r.rows[|s.rows|].id)
  {
    Store(s.rows + [Task(s.nextId, title, description, 0, now)], s.nextId + 1)
  }

  // ---------------------------------------------------------------------------
  // How the table may evolve
  // ---------------------------------------------------------------------------

  /**
    `s'` is a legal successor of `s`: the counter never goes back, a row keeps
    its creation time and never loses its completed flag, and no id below the
    old counter appears that was not already there (deleted rows stay deleted).
   */
  predicate Evolves(s: Store, s': Store) {
    && s.nextId <= s'.nextId
    && (forall i, j :: 0 <= i < |s.rows| && 0 <= j < |s'.rows| && s.rows[i].id == s'.rows[j].id ==>
          && s'.rows[j].createdAt == s.rows[i].createdAt
          && (s.rows[i].completed == 1 ==> s'.rows[j].completed == 1))
    && (forall j :: 0 <= j < |s'.rows| && s'.rows[j].id < s.nextId ==> HasId(s.rows, s'.rows[j].id))
  }

  /** A write that keeps every row's id, creation time and completion, and only sets flags to 0 or 1. */
  lemma InPlaceStep(s: Store, s': Store)
    requires Valid(s)
    requires s'.nextId == s.nextId && |s'.rows| == |s.rows|
    requires forall i :: 0 <= i < |s.rows| ==>
      && s'.rows[i].id == s.rows[i].id
      && s'.rows[i].createdAt == s.rows[i].createdAt
      && (s'.rows[i].completed == 0 || s'.rows[i].completed == 1)
      && (s.rows[i].completed == 1 ==> s'.rows[i].completed == 1)
    ensures Valid(s') && Evolves(s, s')
  {
    forall j | 0 <= j < |s'.rows|
      ensures HasId(s.rows, s'.rows[j].id)
    {
      assert s.rows[j].id == s'.rows[j].id;
    }
  }

  /** A write that only drops rows and keeps ids unique. */
  lemma DropStep(s: Store, s': Store)
    requires Valid(s)
    requires s'.nextId == s.nextId && UniqueIds(s'.rows)
    requires forall j :: 0 <= j < |s'.rows| ==> s'.rows[j] in s.rows
    ensures Valid(s') && Evolves(s, s')
  {
    forall i, j | 0 <= i < |s.rows| && 0 <= j < |s'.rows| && s.rows[i].id == s'.rows[j].id
      ensures s'.rows[j] == s.rows[i]
    {
      var k :| 0 <= k < |s.rows| && s.rows[k] == s'.rows[j];
    }
    forall j | 0 <= j < |s'.rows|
      ensures HasId(s.rows, s'.rows[j].id)
      ensures 0 < s'.rows[j].id < s.nextId
      ensures s'.rows[j].completed == 0 || s'.rows[j].completed == 1
    {
      var k :| 0 <= k < |s.rows| && s.rows[k] == s'.rows[j];
    }
  }

  /** An insert under the counter's next value, which then moves on. */
  lemma AppendStep(s: Store, title: string, description: string, now: int)
    requires Valid(s)
    ensures Valid(Insert(s, title, description, now)) && Evolves(s, Insert(s, title, description, now))
  {
    AppendValid(s, title, description, now);
    AppendEvolves(s, title, description, now);
  }

  lemma AppendValid(s: Store, title: string, description: string, now: int)
    requires Valid(s)
    ensures Valid(Insert(s, title, description, now))
  {
    var s' := Insert(s, title, description, now);
    var n := |s.rows|;
    assert forall j :: 0 <= j < n ==> s'.rows[j] == s.rows[j];
    forall i, j | 0 <= i < j < |s'.rows|
      ensures s'.rows[i].id != s'.rows[j].id
    {
      if j == n {
        assert s'.rows[i].id < s.nextId == s'.rows[j].id;
      }
    }
  }

  lemma AppendEvolves(s: Store, title: string, description: string, now: int)
    requires Valid(s)
    ensures Evolves(s, Insert(s, title, description, now))
  {
    var s' := Insert(s, title, description, now);
    var n := |s.rows|;
    assert forall j :: 0 <= j < n ==> s'.rows[j] == s.rows[j];
    forall i, j | 0 <= i < n && 0 <= j < |s'.rows| && s.rows[i].id == s'.rows[j].id
      ensures s'.rows[j] == s.rows[i]
    {
      assert j < n;
    }
    forall j | 0 <= j < |s'.rows| && s'.rows[j].id < s.nextId
      ensures HasId(s.rows, s'.rows[j].id)
    {
      assert s'.rows[j] == s.rows[j];
    }
  }

  /** Standing still is a legal step. */
  lemma EvolvesRefl(s: Store)
    requires Valid(s)
    ensures Evolves(s, s)
  {
    assert forall j :: 0 <= j < |s.rows| ==> HasId(s.rows, s.rows[j].id);
  }
}
