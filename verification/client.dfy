/**
  The pure pieces of the single-page client: the requests it builds, the
  blank-title guard, the first-five split, the relative-time buckets, the
  header text, and the view state around creating and editing a task.
  Reloading is modelled as reading the server's table directly.
 */
module Client {
  import opened Options
  import opened Text
  import opened TaskStore
  import opened Handlers
  import opened Router

  // ---------------------------------------------------------------------------
  // String.prototype.trim and the blank-title guard
  // ---------------------------------------------------------------------------

  /** ECMAScript WhiteSpace and LineTerminator code points: what `trim` strips. */
  predicate IsJsSpace(c: char) {
    || c == '\t' || c == '\n' || c == '\U{B}' || c == '\U{C}' || c == '\r' || c == ' '
    || c == '\U{A0}' || c == '\U{1680}' || ('\U{2000}' <= c <= '\U{200A}')
    || c == '\U{2028}' || c == '\U{2029}' || c == '\U{202F}' || c == '\U{205F}'
    || c == '\U{3000}' || c == '\U{FEFF}'
  }

  function TrimStart(s: string): (r: string)
    ensures |r| <= |s| && r == s[|s| - |r|..]
    ensures |r| > 0 ==> !IsJsSpace(r[0])
    ensures forall i :: 0 <= i < |s| - |r| ==> IsJsSpace(s[i])
    decreases |s|
  {
    if |s| > 0 && IsJsSpace(s[0]) then TrimStart(s[1..]) else s
  }

  function TrimEnd(s: string): (r: string)
    ensures |r| <= |s| && r == s[..|r|]
    ensures |r| > 0 ==> !IsJsSpace(r[|r| - 1])
    ensures forall i :: |r| <= i < |s| ==> IsJsSpace(s[i])
    decreases |s|
  {
    if |s| > 0 && IsJsSpace(s[|s| - 1]) then TrimEnd(s[..|s| - 1]) else s
  }

  /**
    `s.trim()`: the run of `s` left after its leading and trailing whitespace
    are dropped; it neither starts nor ends with whitespace.
   */
  function Trim(s: string): (r: string)
    ensures |r| <= |s|
    ensures |r| > 0 ==> !IsJsSpace(r[0]) && !IsJsSpace(r[|r| - 1])
    ensures var i := |s| - |TrimStart(s)|;
      && i + |r| <= |s| && r == s[i..i + |r|]
      && (forall k :: 0 <= k < i ==> IsJsSpace(s[k]))
      && (forall k :: i + |r| <= k < |s| ==> IsJsSpace(s[k]))
  {
    var a := TrimStart(s);
    var r := TrimEnd(a);
    PrefixOfSuffix(s, a, r);
    r
  }

  /** A prefix `r` of a suffix `a` of `s` is a slice of `s`, and what follows `r` in `a` follows it in `s`. */
  lemma PrefixOfSuffix(s: string, a: string, r: string)
    requires |a| <= |s| && a == s[|s| - |a|..]
    requires |r| <= |a| && r == a[..|r|]
    requires forall k :: |r| <= k < |a| ==> IsJsSpace(a[k])
    ensures |s| - |a| + |r| <= |s| && r == s[|s| - |a|..|s| - |a| + |r|]
    ensures forall k :: |s| - |a| + |r| <= k < |s| ==> IsJsSpace(s[k])
  {
    var i := |s| - |a|;
    assert forall k :: 0 <= k < |a| ==> a[k] == s[i + k];
    forall k | i + |r| <= k < |s|
      ensures IsJsSpace(s[k])
    {
      assert s[k] == a[k - i];
    }
  }

  /** `!s.trim()`: the trimmed string is empty, hence falsy. */
  predicate Blank(s: string) {
    |Trim(s)| == 0
  }

  /** A title is rejected exactly when every character of it is whitespace. */
  lemma BlankIffAllSpace(s: string)
    ensures Blank(s) <==> forall i :: 0 <= i < |s| ==> IsJsSpace(s[i])
  {
    if !Blank(s) {
      var a := TrimStart(s);
      var r := Trim(s);
      assert r == a[..|r|] && a == s[|s| - |a|..];
      assert r[0] == s[|s| - |a|];
    }
  }

  // ---------------------------------------------------------------------------
  // The first-five split
  // ---------------------------------------------------------------------------

  function Min(a: nat, b: nat): nat {
    if a <= b then a else b
  }

  /** `recentTasks`: the whole list in completed mode, otherwise `tasks.slice(0, 5)`. */
  function RecentTasks(tasks: seq<Task>, showCompleted: bool): (r: seq<Task>)
    ensures r <= tasks
    ensures showCompleted ==> r == tasks
    ensures !showCompleted ==> |r| == Min(5, |tasks|)
  {
    if showCompleted then tasks else tasks[..Min(5, |tasks|)]
  }

  /** `olderTasks`: nothing in completed mode, otherwise `tasks.slice(5)`: what follows the recent ones. */
  function OlderTasks(tasks: seq<Task>, showCompleted: bool): (r: seq<Task>)
    ensures RecentTasks(tasks, showCompleted) + r == tasks
    ensures showCompleted ==> r == []
    ensures !showCompleted ==> |r| == |tasks| - Min(5, |tasks|)
  {
    if showCompleted then [] else tasks[Min(5, |tasks|)..]
  }

  // ---------------------------------------------------------------------------
  // formatDate
  // ---------------------------------------------------------------------------

  /** The bucket `formatDate` puts an age into. */
  datatype Age = JustNow | MinutesAgo(n: nat) | HoursAgo(n: nat) | DaysAgo(n: nat) | OnDate

  const MinuteMs := 60000
  const HourMs := 3600000
  const DayMs := 86400000

  /**
    The bucketing of `formatDate` on the elapsed time `diffMs` (now minus the
    creation time). `Math.floor(d / k)` is Dafny's `d / k` for positive `k`.
    A future date (negative age) reads "Just now".
   */
  function AgeOf(diffMs: int): (r: Age)
    ensures r == JustNow <==> diffMs < MinuteMs
    ensures r.MinutesAgo? <==> MinuteMs <= diffMs < HourMs
    ensures r.HoursAgo? <==> HourMs <= diffMs < DayMs
    ensures r.DaysAgo? <==> DayMs <= diffMs < 7 * DayMs
    ensures r == OnDate <==> 7 * DayMs <= diffMs
    ensures r.MinutesAgo? ==> 1 <= r.n < 60 && r.n * MinuteMs <= diffMs < (r.n + 1) * MinuteMs
    ensures r.HoursAgo? ==> 1 <= r.n < 24 && r.n * HourMs <= diffMs < (r.n + 1) * HourMs
    ensures r.DaysAgo? ==> 1 <= r.n < 7 && r.n * DayMs <= diffMs < (r.n + 1) * DayMs
  {
    var mins := diffMs / MinuteMs;
    var hours := diffMs / HourMs;
    var days := diffMs / DayMs;
    if mins < 1 then JustNow
    else if mins < 60 then MinutesAgo(mins)
    else if hours < 24 then HoursAgo(hours)
    else if days < 7 then DaysAgo(days)
    else OnDate
  }

  /** The text shown; `absolute` stands for `toLocaleDateString`'s output. */
  function FormatDate(diffMs: int, absolute: string): (r: string)
    ensures diffMs < MinuteMs ==> r == "Just now"
    ensures MinuteMs <= diffMs < HourMs ==> r == NatToString(diffMs / MinuteMs) + "m ago"
    ensures HourMs <= diffMs < DayMs ==> r == NatToString(diffMs / HourMs) + "h ago"
    ensures DayMs <= diffMs < 7 * DayMs ==> r == NatToString(diffMs / DayMs) + "d ago"
    ensures 7 * DayMs <= diffMs ==> r == absolute
  {
    match AgeOf(diffMs)
    case JustNow => "Just now"
    case MinutesAgo(n) => NatToString(n) + "m ago"
    case HoursAgo(n) => NatToString(n) + "h ago"
    case DaysAgo(n) => NatToString(n) + "d ago"
    case OnDate => absolute
  }

  /** An older task never lands in a more recent bucket. */
  lemma AgeMonotone(d1: int, d2: int)
    requires d1 <= d2
    ensures Rank(AgeOf(d1)) <= Rank(AgeOf(d2))
  {
  }

  function Rank(a: Age): nat {
    match a
    case JustNow => 0
    case MinutesAgo(_) => 1
    case HoursAgo(_) => 2
    case DaysAgo(_) => 3
    case OnDate => 4
  }

  // ---------------------------------------------------------------------------
  // Header
  // ---------------------------------------------------------------------------

  const AllDone := "All done!"

  /** `uncompletedCount === 0 ? "All done!" : `${uncompletedCount} pending``, on a numeric count. */
  function Header(count: nat): string {
    if count == 0 then AllDone else NatToString(count) + " pending"
  }

  /** The header reads "All done!" exactly when the count is zero. */
  lemma HeaderAllDoneIff(count: nat)
    ensures Header(count) == AllDone <==> count == 0
  {
    if count != 0 {
      var h := Header(count);
      assert h[|h| - 1] == 'g';
    }
  }

  /** A JSON scalar as the client receives it. */
  datatype JsonScalar = JsonNumber(n: nat) | JsonString(text: string)

  /**
    `uncompleted_count` as count.php sends it: `query()` with mysqli's
    default options hands column values back as strings, and `json_encode`
    keeps a string a string.
   */
  function CountFieldAsSent(count: nat): JsonScalar {
    JsonString(NatToString(count))
  }

  /** The header expression as written, on whatever JSON value arrived: `=== 0` is a strict comparison. */
  function HeaderAsWritten(count: JsonScalar): string {
    if count == JsonNumber(0) then AllDone
    else (if count.JsonNumber? then NatToString(count.n) else count.text) + " pending"
  }

  /** On the count as sent, the header never reads "All done!": an empty table shows "0 pending". */
  lemma HeaderAsWrittenNeverAllDone(count: nat)
    ensures HeaderAsWritten(CountFieldAsSent(count)) != AllDone
    ensures HeaderAsWritten(CountFieldAsSent(0)) == "0 pending"
  {
    var h := HeaderAsWritten(CountFieldAsSent(count));
    assert h[|h| - 1] == 'g';
  }

  /** The count sent as a JSON number, as with an `(int)` cast in count.php. */
  function CountFieldCorrected(count: nat): JsonScalar {
    JsonNumber(count)
  }

  /** With a numeric count the same header expression says "All done!" exactly on zero. */
  lemma CorrectedHeaderAllDoneIff(count: nat)
    ensures HeaderAsWritten(CountFieldCorrected(count)) == Header(count)
    ensures HeaderAsWritten(CountFieldCorrected(count)) == AllDone <==> count == 0
  {
    HeaderAllDoneIff(count);
  }

  // ---------------------------------------------------------------------------
  // Requests the client sends
  // ---------------------------------------------------------------------------

  /** No JSON body: complete and delete are plain GETs. */
  const NoBody := Body(None, None)

  function CreateRequest(title: string, description: string): Request {
    Request("POST", Mount + "/tasks/create", Body(Some(title), Some(description)))
  }

  function CompleteRequest(id: nat): Request {
    Request("GET", Mount + CompletePrefix + NatToString(id), NoBody)
  }

  function DeleteRequest(id: nat): Request {
    Request("GET", Mount + DeletePrefix + NatToString(id), NoBody)
  }

  /** `editingId!` is only a type assertion: a null id is interpolated as the text "null". */
  function UpdateRequest(id: Option<nat>, title: string, description: string): Request {
    var idText := if id.Some? then NatToString(id.value) else "null";
    Request("POST", Mount + UpdatePrefix + idText, Body(Some(title), Some(description)))
  }

  /** Saving with a null edit id reaches no handler: the router answers "API is running" and the table stays. */
  lemma NullEditIdFallsThrough(s: Store, title: string, description: string, now: int, ok: bool)
    ensures Handle(s, UpdateRequest(None, title, description), now, ok) == Reply(ApiRunning, s)
  {
    var req := UpdateRequest(None, title, description);
    assert RouteOf(req.verb, req.path) == Fallback by {
      assert req.path == Mount + "/tasks/update/null";
      assert '_' !in "/tasks/update/null";
      RouteOfMounted(req.verb, "/tasks/update/null");
      assert !IsDigit("null"[0]);
      assert UpdatePrefix + "null" == "/tasks/update/null";
      UpdateNonDigitsFallsThrough("null");
    }
  }

  /** A client-built URL for an id reaches its handler, and `intval` recovers the id. */
  lemma ClientIdRoundTrip(s: Store, id: nat, title: string, description: string, now: int, ok: bool)
    ensures Handle(s, CompleteRequest(id), now, ok) == CompleteTask(s, Some(NatToString(id)), ok)
    ensures Handle(s, DeleteRequest(id), now, ok) == DeleteTask(s, Some(NatToString(id)), ok)
    ensures Handle(s, UpdateRequest(Some(id), title, description), now, ok)
         == UpdateTask(s, Some(NatToString(id)), Body(Some(title), Some(description)), ok)
    ensures IntVal(NatToString(id)) == id
  {
    ClientCompleteRoutes(s, id, now, ok);
    ClientDeleteRoutes(s, id, now, ok);
    ClientUpdateRoutes(s, id, title, description, now, ok);
    IntValOfNatToString(id);
  }

  lemma ClientCompleteRoutes(s: Store, id: nat, now: int, ok: bool)
    ensures Handle(s, CompleteRequest(id), now, ok) == CompleteTask(s, Some(NatToString(id)), ok)
  {
    var req := CompleteRequest(id);
    MountedCompleteRoute(req.verb, NatToString(id));
    HandleOnRoute(s, req, now, ok, CompleteRoute(NatToString(id)));
  }

  lemma ClientDeleteRoutes(s: Store, id: nat, now: int, ok: bool)
    ensures Handle(s, DeleteRequest(id), now, ok) == DeleteTask(s, Some(NatToString(id)), ok)
  {
    var req := DeleteRequest(id);
    MountedDeleteRoute(req.verb, NatToString(id));
    HandleOnRoute(s, req, now, ok, DeleteRoute(NatToString(id)));
  }

  lemma ClientUpdateRoutes(s: Store, id: nat, title: string, description: string, now: int, ok: bool)
    ensures Handle(s, UpdateRequest(Some(id), title, description), now, ok)
         == UpdateTask(s, Some(NatToString(id)), Body(Some(title), Some(description)), ok)
  {
    var req := UpdateRequest(Some(id), title, description);
    assert RouteOf(req.verb, req.path) == UpdateRoute(NatToString(id)) by {
      MountedUpdateRoute(req.verb, NatToString(id));
    }
    HandleUpdatePath(s, req, NatToString(id), now, ok);
  }

  /** The create request reaches the create handler with the typed title and description. */
  lemma ClientCreateRoutes(s: Store, title: string, description: string, now: int, ok: bool)
    ensures Handle(s, CreateRequest(title, description), now, ok)
         == Create(s, Body(Some(title), Some(description)), now, ok)
  {
    var req := CreateRequest(title, description);
    assert RouteOf(req.verb, req.path) == CreateRoute by {
      var p := "/tasks/create";
      assert '_' !in p;
      RouteOfMounted("POST", p);
    }
    HandleOnRoute(s, req, now, ok, CreateRoute);
  }

  // ---------------------------------------------------------------------------
  // View state
  // ---------------------------------------------------------------------------

  /** The component's state that the handlers below read or write. */
  datatype View = View(
    tasks: seq<Task>,
    showCompleted: bool,
    uncompletedCount: nat,
    editingId: Option<nat>,
    editTitle: string,
    editDesc: string,
    newTitle: string,
    newDesc: string)

  /** What a user action produced: the request it sent, if any, and the next view. */
  datatype Action = Action(request: Option<Request>, view: View)

  /** `result.success` is truthy only on a success/message answer that says so. */
  predicate Succeeded(reply: Option<Response>) {
    reply.Some? && reply.value.Ack? && reply.value.success
  }

  /**
    `handleTaskCreated`: a blank title sends nothing and changes nothing;
    otherwise the untrimmed title goes out, and the inputs are cleared once
    the call returns (`delivered`), whatever status the server reported.
   */
  function HandleTaskCreated(v: View, delivered: bool): (a: Action)
    ensures Blank(v.newTitle) ==> a == Action(None, v)
    ensures !Blank(v.newTitle) ==> a.request == Some(CreateRequest(v.newTitle, v.newDesc))
    ensures !Blank(v.newTitle) && delivered ==> a.view == v.(newTitle := "", newDesc := "")
    ensures !delivered ==> a.view == v
  {
    if Blank(v.newTitle) then Action(None, v)
    else
      var req := CreateRequest(v.newTitle, v.newDesc);
      if delivered then Action(Some(req), v.(newTitle := "", newDesc := "")) else Action(Some(req), v)
  }

  /** `startEdit`: edit mode for one task, seeded with its current text. */
  function StartEdit(v: View, t: Task): (r: View)
    ensures r.editingId == Some(t.id) && r.editTitle == t.title && r.editDesc == t.description
    ensures r.tasks == v.tasks && r.newTitle == v.newTitle && r.newDesc == v.newDesc
    ensures r.(editingId := v.editingId, editTitle := v.editTitle, editDesc := v.editDesc) == v
  {
    v.(editingId := Some(t.id), editTitle := t.title, editDesc := t.description)
  }

  /**
    `saveEdit`: the same blank-title guard; otherwise the update is sent and
    the edit state is cleared only when the server answers success.
   */
  function SaveEdit(v: View, reply: Option<Response>): (a: Action)
    ensures Blank(v.editTitle) ==> a == Action(None, v)
    ensures !Blank(v.editTitle) ==> a.request == Some(UpdateRequest(v.editingId, v.editTitle, v.editDesc))
    ensures !Blank(v.editTitle) && Succeeded(reply) ==>
      a.view == v.(editingId := None, editTitle := "", editDesc := "")
    ensures !Succeeded(reply) ==> a.view == v
  {
    if Blank(v.editTitle) then Action(None, v)
    else
      var req := UpdateRequest(v.editingId, v.editTitle, v.editDesc);
      if Succeeded(reply) then Action(Some(req), v.(editingId := None, editTitle := "", editDesc := ""))
      else Action(Some(req), v)
  }

  /** `cancelEdit`: leaves edit mode and empties both edit fields; nothing else moves. */
  function CancelEdit(v: View): (r: View)
    ensures r.editingId.None? && r.editTitle == "" && r.editDesc == ""
    ensures r.(editingId := v.editingId, editTitle := v.editTitle, editDesc := v.editDesc) == v
  {
    v.(editingId := None, editTitle := "", editDesc := "")
  }

  /** After cancelling, saving sends nothing: the emptied title is blank. */
  lemma CancelThenSaveSendsNothing(v: View, reply: Option<Response>)
    ensures SaveEdit(CancelEdit(v), reply) == Action(None, CancelEdit(v))
  {
    assert Trim("") == "";
  }

  /**
    `loadTasks`: the list for the current mode, sorted newest first on the
    client as well, and the uncompleted count, both read from table `s`.
    The count is kept as a number, as the corrected count handler sends it
    (see `CountFieldCorrected`); `LoadedHeaderAsWritten` covers the string
    the handler sends as written.
   */
  function LoadTasks(v: View, s: Store): (r: View)
    ensures SortedDesc(r.tasks)
    ensures !v.showCompleted ==> multiset(r.tasks) == multiset(Filter(s.rows, 0))
    ensures v.showCompleted ==> multiset(r.tasks) == multiset(Filter(s.rows, 1))
    ensures r.uncompletedCount == Count(s.rows, 0)
    ensures r.showCompleted == v.showCompleted && r.editingId == v.editingId
  {
    var listing := if v.showCompleted then CompletedTasks(s, true) else Uncompleted(s);
    var count := CountUncompleted(s).response.count;
    v.(tasks := SortDesc(listing.response.tasks), uncompletedCount := count)
  }

  /** The client's sort keeps the server's order: the listing already arrives newest first. */
  lemma ClientSortKeepsServerOrder(v: View, s: Store)
    ensures !v.showCompleted ==> LoadTasks(v, s).tasks == Uncompleted(s).response.tasks
    ensures v.showCompleted ==> LoadTasks(v, s).tasks == CompletedTasks(s, true).response.tasks
  {
    SortDescOfSorted(Uncompleted(s).response.tasks);
    SortDescOfSorted(CompletedTasks(s, true).response.tasks);
  }

  /**
    In active mode after a load, the header says "All done!" exactly when the
    list is empty, given the count as a number (the corrected count handler).
   */
  lemma AllDoneIffNoActiveTasks(v: View, s: Store)
    requires !v.showCompleted
    ensures Header(LoadTasks(v, s).uncompletedCount) == AllDone <==> LoadTasks(v, s).tasks == []
  {
    CountMatchesUncompletedList(s);
    HeaderAllDoneIff(LoadTasks(v, s).uncompletedCount);
  }

  /**
    With the count sent as a string, as the count handler is written, an
    empty active list after a load is headed "0 pending", not "All done!".
   */
  lemma LoadedHeaderAsWritten(v: View, s: Store)
    requires !v.showCompleted
    ensures LoadTasks(v, s).tasks == [] ==>
      HeaderAsWritten(CountFieldAsSent(LoadTasks(v, s).uncompletedCount)) == "0 pending"
  {
    CountMatchesUncompletedList(s);
    HeaderAsWrittenNeverAllDone(0);
  }

  // ---------------------------------------------------------------------------
  // Client and server together
  // ---------------------------------------------------------------------------

  /**
    Editing a task and saving it untouched writes back the same text: the
    table is unchanged and the server reports success.
   */
  lemma EditUnchangedIsNoOp(v: View, s: Store, k: nat, now: int)
    requires Valid(s) && k < |s.rows|
    requires !Blank(s.rows[k].title)
    ensures var req := SaveEdit(StartEdit(v, s.rows[k]), None).request;
      && req.Some?
      && Handle(s, req.value, now, true) == Reply(Ack(true, Updated), s)
  {
    var t := s.rows[k];
    ClientIdRoundTrip(s, t.id, t.title, t.description, now, true);
    RewriteSame(s.rows, k);
  }

  /**
    A title the client lets through reaches the table untrimmed: creating from
    the form adds one row carrying exactly the typed title and description.
   */
  lemma CreatedRowKeepsTypedText(v: View, s: Store, now: int)
    requires !Blank(v.newTitle)
    ensures var req := HandleTaskCreated(v, true).request;
      && req.Some?
      && Handle(s, req.value, now, true).store.rows
         == s.rows + [Task(s.nextId, v.newTitle, v.newDesc, 0, now)]
  {
    ClientCreateRoutes(s, v.newTitle, v.newDesc, now, true);
  }
}
