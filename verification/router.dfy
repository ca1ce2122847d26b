/**
  The front controller: strips the mount string from the request path,
  short-circuits pre-flight requests, then tries five literal paths and three
  `^/tasks/<verb>/(\d+)$` patterns in a fixed order. Every branch ends the
  request, so the first rule that matches decides; nothing matching gives the
  liveness message.
 */
module Router {
  import opened Options
  import opened Text
  import opened TaskStore
  import opened Handlers

  /** The directory the backend is served from; every occurrence is removed from the path. */
  const Mount := "/todo_app/backend"

  const CompletePrefix := "/tasks/complete/"
  const DeletePrefix := "/tasks/delete/"
  const UpdatePrefix := "/tasks/update/"

  /** Which handler a request reaches. */
  datatype Route =
    | Preflight
    | ListAll
    | ListUncompleted
    | ListCompleted
    | CountRoute
    | CreateRoute
    | CompleteRoute(id: string)
    | DeleteRoute(id: string)
    | UpdateRoute(id: string)
    | Fallback

  /** A request as the controller sees it: HTTP method (`verb`), URI path (already parsed), decoded body. */
  datatype Request = Request(verb: string, path: string, body: Body)

  /** `preg_match("#^" + prefix + "(\d+)$#", path)`: the digit run after `prefix`, if that is all that follows. */
  function Capture(path: string, prefix: string): (r: Option<string>)
    ensures r.Some? ==> path == prefix + r.value && |r.value| > 0 && AllDigits(r.value)
    ensures r.None? ==> forall x :: path == prefix + x ==> |x| == 0 || !AllDigits(x)
  {
    if prefix <= path && |path| > |prefix| && AllDigits(path[|prefix|..]) then
      assert path == prefix + path[|prefix|..];
      Some(path[|prefix|..])
    else
      assert forall x :: path == prefix + x ==> prefix <= path && path[|prefix|..] == x;
      None
  }

  /** The ordered rule list of the controller, on the path with the mount string already removed. */
  function Dispatch(path: string): (r: Route)
    ensures r != Preflight
    ensures r.CompleteRoute? || r.DeleteRoute? || r.UpdateRoute? ==> |r.id| > 0 && AllDigits(r.id)
  {
    if path == "/tasks" then ListAll
    else if path == "/tasks/uncompleted" then ListUncompleted
    else if path == "/tasks/completed" then ListCompleted
    else if path == "/tasks/count" then CountRoute
    else if path == "/tasks/create" then CreateRoute
    else if Capture(path, CompletePrefix).Some? then CompleteRoute(Capture(path, CompletePrefix).value)
    else if Capture(path, DeletePrefix).Some? then DeleteRoute(Capture(path, DeletePrefix).value)
    else if Capture(path, UpdatePrefix).Some? then UpdateRoute(Capture(path, UpdatePrefix).value)
    else Fallback
  }

  /** An OPTIONS request wins before the path is even looked at. */
  function RouteOf(verb: string, path: string): (r: Route)
    ensures verb == "OPTIONS" ==> r == Preflight
    ensures r == Preflight ==> verb == "OPTIONS"
  {
    if verb == "OPTIONS" then Preflight else Dispatch(RemoveAll(path, Mount))
  }

  /**
    Runs the handler a route selects. `now` is the database clock for an
    insert; `ok` says whether the single statement the handler runs executes.
   */
  function Apply(s: Store, route: Route, body: Body, now: int, ok: bool): (r: Reply)
    ensures route == Preflight ==> r == Reply(NoContent, s)
    ensures route == Fallback ==> r == Reply(ApiRunning, s)
    ensures route.CompleteRoute? || route.DeleteRoute? || route.UpdateRoute? ==> r.response.Ack?
  {
    match route
    case Preflight => Reply(NoContent, s)
    case ListAll => GetTasks(s)
    case ListUncompleted => Uncompleted(s)
    case ListCompleted => CompletedTasks(s, ok)
    case CountRoute => CountUncompleted(s)
    case CreateRoute => Create(s, body, now, ok)
    case CompleteRoute(id) => CompleteTask(s, Some(id), ok)
    case DeleteRoute(id) => DeleteTask(s, Some(id), ok)
    case UpdateRoute(id) => UpdateTask(s, Some(id), body, ok)
    case Fallback => Reply(ApiRunning, s)
  }

  /** One request against the table: route it, then run what it reaches. */
  function Handle(s: Store, req: Request, now: int, ok: bool): (r: Reply)
    ensures req.verb == "OPTIONS" ==> r == Reply(NoContent, s)
    ensures RouteOf(req.verb, req.path) == Fallback ==> r == Reply(ApiRunning, s)
  {
    Apply(s, RouteOf(req.verb, req.path), req.body, now, ok)
  }

  /**
    Through the router, complete and update always receive an id, so the
    "Task ID required" answer can never be produced.
   */
  lemma IdRequiredUnreachable(s: Store, req: Request, now: int, ok: bool)
    ensures Handle(s, req, now, ok).response != Ack(false, IdRequired)
  {
    var route := RouteOf(req.verb, req.path);
    assert Handle(s, req, now, ok) == Apply(s, route, req.body, now, ok);
    ApplyNeverIdRequired(s, route, req.body, now, ok);
  }

  lemma ApplyNeverIdRequired(s: Store, route: Route, body: Body, now: int, ok: bool)
    ensures Apply(s, route, body, now, ok).response != Ack(false, IdRequired)
  {
    match route
    case CompleteRoute(id) =>
      assert Apply(s, route, body, now, ok) == CompleteTask(s, Some(id), ok);
      assert CompleteFailed != IdRequired;
    case DeleteRoute(id) =>
      assert Apply(s, route, body, now, ok) == DeleteTask(s, Some(id), ok);
      assert |InvalidId| != |IdRequired| && |DeleteFailed| != |IdRequired|;
    case UpdateRoute(id) =>
      assert Apply(s, route, body, now, ok) == UpdateTask(s, Some(id), body, ok);
      assert |TitleRequired| != |IdRequired| && |UpdateFailed| != |IdRequired|;
    case _ =>
  }

  // ---------------------------------------------------------------------------
  // Path handling
  // ---------------------------------------------------------------------------

  /**
    The mount string is removed wherever it occurs, not only at the front:
    after any underscore-free text `a`, an occurrence is dropped and the scan
    goes on behind it. No occurrence can straddle the end of `a`, because the
    mount's only `/` before its `_` is its first character.
   */
  lemma MountRemovedAfter(a: string, b: string)
    requires '_' !in a
    ensures RemoveAll(a + Mount + b, Mount) == a + RemoveAll(b, Mount)
  {
    var t := a + Mount + b;
    forall k | 0 <= k < |a|
      ensures !(Mount <= t[k..])
    {
      if k + 5 < |a| {
        assert t[k..][5] == a[k + 5] != Mount[5];
      } else {
        var m := |a| - k;
        assert t[k..][m] == Mount[0] != Mount[m];
      }
    }
    RemovePlain(t, |a|, Mount);
    assert t[..|a|] == a && t[|a|..] == Mount + b;
    RemoveLeading(Mount, b);
  }

  /** Two instances: a mount after the route, and mounts on both sides of it. */
  lemma MountRemovedAnywhere()
    ensures RemoveAll("/tasks" + Mount, Mount) == "/tasks"
    ensures RemoveAll(Mount + "/tasks" + Mount, Mount) == "/tasks"
  {
    var a := "/tasks";
    MountRemovedAfter(a, []);
    assert a + Mount + [] == a + Mount;
    assert RemoveAll([], Mount) == [];
    RemoveLeading(Mount, a + Mount);
    assert Mount + a + Mount == Mount + (a + Mount);
  }

  /** A client path (no underscore in it) behind the mount string reaches the router intact. */
  lemma MountedPathStripped(p: string)
    requires '_' !in p
    ensures RemoveAll(Mount + p, Mount) == p
  {
    RemoveLeading(Mount, p);
    assert Mount[5] == '_';
    MissingCharNoOccurrence(p, Mount, '_');
  }

  /** Without the routing verb OPTIONS, a mounted client path is dispatched as itself. */
  lemma RouteOfMounted(verb: string, p: string)
    requires verb != "OPTIONS" && '_' !in p
    ensures RouteOf(verb, Mount + p) == Dispatch(p)
  {
    MountedPathStripped(p);
  }

  // ---------------------------------------------------------------------------
  // The rule list
  // ---------------------------------------------------------------------------

  /** A path that differs from `prefix` at some position inside it cannot match that pattern. */
  lemma NoCaptureAt(p: string, prefix: string, k: nat)
    requires k < |prefix| && k < |p| && p[k] != prefix[k]
    ensures Capture(p, prefix).None?
  {
  }

  /** Each of the five literal routes is reached by its own path and by no other. */
  lemma LiteralRoutesExact(p: string)
    ensures Dispatch(p) == ListAll <==> p == "/tasks"
    ensures Dispatch(p) == ListUncompleted <==> p == "/tasks/uncompleted"
    ensures Dispatch(p) == ListCompleted <==> p == "/tasks/completed"
    ensures Dispatch(p) == CountRoute <==> p == "/tasks/count"
    ensures Dispatch(p) == CreateRoute <==> p == "/tasks/create"
  {
  }

  /** The five literal routes match only the exact string: a trailing slash falls through. */
  lemma LiteralsAreExact()
    ensures Dispatch("/tasks") == ListAll
    ensures Dispatch("/tasks/") == Fallback
    ensures Dispatch("/tasks/count/") == Fallback
    ensures Dispatch("/tasks/create/") == Fallback
  {
    var p := "/tasks/";
    assert !(CompletePrefix <= p) && !(DeletePrefix <= p) && !(UpdatePrefix <= p);
    var q := "/tasks/count/";
    NoCaptureAt(q, CompletePrefix, 9);
    NoCaptureAt(q, DeletePrefix, 7);
    NoCaptureAt(q, UpdatePrefix, 7);
    var c := "/tasks/create/";
    NoCaptureAt(c, CompletePrefix, 8);
    NoCaptureAt(c, DeletePrefix, 7);
    NoCaptureAt(c, UpdatePrefix, 7);
  }

  /** A negative id is not a digit run: `/tasks/delete/-1` gets the liveness message. */
  lemma NegativeIdFallsThrough()
    ensures Dispatch("/tasks/delete/-1") == Fallback
  {
    var p := "/tasks/delete/-1";
    assert p != "/tasks/completed" by { assert p[7] != "/tasks/completed"[7]; }
    assert p != "/tasks/uncompleted";
    NoCaptureAt(p, CompletePrefix, 7);
    NoCaptureAt(p, UpdatePrefix, 7);
    assert !IsDigit(p[14]);
    assert !AllDigits(p[|DeletePrefix|..]) by { assert p[|DeletePrefix|..][0] == p[14]; }
  }

  /**
    The update prefix followed by anything but a non-empty digit run matches
    no rule and gets the fallback; `/tasks/update/null` is one such path.
   */
  lemma UpdateNonDigitsFallsThrough(x: string)
    requires |x| == 0 || !AllDigits(x)
    ensures Dispatch(UpdatePrefix + x) == Fallback
  {
    var p := UpdatePrefix + x;
    assert p[7] == 'u' && p[8] == 'p';
    NotShortLiteral(p);
    assert p != "/tasks/uncompleted" by { assert "/tasks/uncompleted"[8] == 'n'; }
    assert p != "/tasks/completed" by { assert "/tasks/completed"[7] == 'c'; }
    NoCaptureAt(p, CompletePrefix, 7);
    NoCaptureAt(p, DeletePrefix, 7);
    assert p[|UpdatePrefix|..] == x;
  }

  /** `/tasks/complete/<x>` reaches complete with `id = x` exactly when `x` is a non-empty digit run. */
  lemma DispatchCompleteIff(p: string, x: string)
    ensures Dispatch(p) == CompleteRoute(x) <==> (p == CompletePrefix + x && |x| > 0 && AllDigits(x))
  {
    if p == CompletePrefix + x && |x| > 0 && AllDigits(x) {
      CompletePathDispatches(x);
    }
  }

  lemma CompletePathDispatches(x: string)
    requires |x| > 0 && AllDigits(x)
    ensures Dispatch(CompletePrefix + x) == CompleteRoute(x)
  {
    var p := CompletePrefix + x;
    assert p[7] == 'c' && p[8] == 'o' && p[15] == '/';
    NotShortLiteral(p);
    assert p != "/tasks/uncompleted" by { assert "/tasks/uncompleted"[7] == 'u'; }
    assert p != "/tasks/completed" by { assert "/tasks/completed"[15] == 'd'; }
    CaptureOf(CompletePrefix, x);
  }

  /** `/tasks/delete/<x>` reaches delete with `id = x` exactly when `x` is a non-empty digit run. */
  lemma DispatchDeleteIff(p: string, x: string)
    ensures Dispatch(p) == DeleteRoute(x) <==> (p == DeletePrefix + x && |x| > 0 && AllDigits(x))
  {
    if p == DeletePrefix + x && |x| > 0 && AllDigits(x) {
      DeletePathDispatches(x);
    }
  }

  lemma DeletePathDispatches(x: string)
    requires |x| > 0 && AllDigits(x)
    ensures Dispatch(DeletePrefix + x) == DeleteRoute(x)
  {
    var p := DeletePrefix + x;
    assert p[7] == 'd';
    NotShortLiteral(p);
    NotListingLiteral(p);
    NoCaptureAt(p, CompletePrefix, 7);
    CaptureOf(DeletePrefix, x);
  }

  /** `/tasks/update/<x>` reaches update with `id = x` exactly when `x` is a non-empty digit run. */
  lemma DispatchUpdateIff(p: string, x: string)
    ensures Dispatch(p) == UpdateRoute(x) <==> (p == UpdatePrefix + x && |x| > 0 && AllDigits(x))
  {
    if p == UpdatePrefix + x && |x| > 0 && AllDigits(x) {
      UpdatePathDispatches(x);
    }
  }

  lemma UpdatePathDispatches(x: string)
    requires |x| > 0 && AllDigits(x)
    ensures Dispatch(UpdatePrefix + x) == UpdateRoute(x)
  {
    var p := UpdatePrefix + x;
    assert p[7] == 'u' && p[8] == 'p';
    NotShortLiteral(p);
    assert p != "/tasks/uncompleted" by { assert "/tasks/uncompleted"[8] == 'n'; }
    assert p != "/tasks/completed" by { assert "/tasks/completed"[7] == 'c'; }
    NoCaptureAt(p, CompletePrefix, 7);
    NoCaptureAt(p, DeletePrefix, 7);
    CaptureOf(UpdatePrefix, x);
  }

  /** A path of 14 characters or more is none of `/tasks`, `/tasks/count`, `/tasks/create`. */
  lemma NotShortLiteral(p: string)
    requires |p| >= 14
    ensures p != "/tasks" && p != "/tasks/count" && p != "/tasks/create"
  {
    assert |"/tasks"| == 6 && |"/tasks/count"| == 12 && |"/tasks/create"| == 13;
  }

  /** A path whose eighth character is neither `u` nor `c` names neither listing. */
  lemma NotListingLiteral(p: string)
    requires |p| > 7 && p[7] != 'u' && p[7] != 'c'
    ensures p != "/tasks/uncompleted" && p != "/tasks/completed"
  {
    assert "/tasks/uncompleted"[7] == 'u' && "/tasks/completed"[7] == 'c';
  }

  /** The prefix followed by a non-empty digit run captures exactly that run. */
  lemma CaptureOf(prefix: string, x: string)
    requires |x| > 0 && AllDigits(x)
    ensures Capture(prefix + x, prefix) == Some(x)
  {
    assert (prefix + x)[|prefix|..] == x;
  }

  /** Whatever id the patterns capture, `intval` of it is a natural number. */
  lemma CapturedIdNonNegative(p: string)
    ensures Dispatch(p).CompleteRoute? ==> IntVal(Dispatch(p).id) >= 0
    ensures Dispatch(p).DeleteRoute? ==> IntVal(Dispatch(p).id) >= 0
    ensures Dispatch(p).UpdateRoute? ==> IntVal(Dispatch(p).id) >= 0
  {
    var r := Dispatch(p);
    if r.CompleteRoute? || r.DeleteRoute? || r.UpdateRoute? {
      assert IntVal(r.id) == DigitsValue(r.id);
    }
  }

  /** A mounted id route reaches its handler with exactly the digits that follow the verb. */
  lemma MountedIdRoute(verb: string, x: string)
    requires verb != "OPTIONS" && |x| > 0 && AllDigits(x)
    ensures RouteOf(verb, Mount + CompletePrefix + x) == CompleteRoute(x)
    ensures RouteOf(verb, Mount + DeletePrefix + x) == DeleteRoute(x)
    ensures RouteOf(verb, Mount + UpdatePrefix + x) == UpdateRoute(x)
  {
    MountedCompleteRoute(verb, x);
    MountedDeleteRoute(verb, x);
    MountedUpdateRoute(verb, x);
  }

  lemma MountedCompleteRoute(verb: string, x: string)
    requires verb != "OPTIONS" && |x| > 0 && AllDigits(x)
    ensures RouteOf(verb, Mount + CompletePrefix + x) == CompleteRoute(x)
  {
    MountedUnderPrefix(verb, CompletePrefix, x);
    CompletePathDispatches(x);
  }

  lemma MountedDeleteRoute(verb: string, x: string)
    requires verb != "OPTIONS" && |x| > 0 && AllDigits(x)
    ensures RouteOf(verb, Mount + DeletePrefix + x) == DeleteRoute(x)
  {
    MountedUnderPrefix(verb, DeletePrefix, x);
    DeletePathDispatches(x);
  }

  lemma MountedUpdateRoute(verb: string, x: string)
    requires verb != "OPTIONS" && |x| > 0 && AllDigits(x)
    ensures RouteOf(verb, Mount + UpdatePrefix + x) == UpdateRoute(x)
  {
    MountedUnderPrefix(verb, UpdatePrefix, x);
    UpdatePathDispatches(x);
  }

  /** Mount, an underscore-free prefix and digits: routed on the prefix and digits alone. */
  lemma MountedUnderPrefix(verb: string, prefix: string, x: string)
    requires verb != "OPTIONS" && '_' !in prefix && AllDigits(x)
    ensures RouteOf(verb, Mount + prefix + x) == Dispatch(prefix + x)
  {
    DigitsHaveNoUnderscore(x);
    NotInConcat(prefix, x, '_');
    assert Mount + prefix + x == Mount + (prefix + x);
    RouteOfMounted(verb, prefix + x);
  }

  /** A request routed to update `x` is answered by the update handler with `x` as its id. */
  lemma HandleUpdatePath(s: Store, req: Request, x: string, now: int, ok: bool)
    requires RouteOf(req.verb, req.path) == UpdateRoute(x)
    ensures Handle(s, req, now, ok) == UpdateTask(s, Some(x), req.body, ok)
  {
    HandleOnRoute(s, req, now, ok, UpdateRoute(x));
  }

  /** The reply to a request is the reply of the route it reaches. */
  lemma HandleOnRoute(s: Store, req: Request, now: int, ok: bool, route: Route)
    requires RouteOf(req.verb, req.path) == route
    ensures Handle(s, req, now, ok) == Apply(s, route, req.body, now, ok)
  {
  }

  /**
    A request routed to delete carries a digit-string id, and it is answered
    "Invalid task ID" exactly when those digits denote 0.
   */
  lemma RoutedDeleteRejectsOnlyZero(s: Store, req: Request, x: string, now: int, ok: bool)
    requires RouteOf(req.verb, req.path) == DeleteRoute(x)
    ensures AllDigits(x)
    ensures Handle(s, req, now, ok).response == Ack(false, InvalidId) <==> DigitsValue(x) == 0
  {
    assert AllDigits(x) by {
      assert RouteOf(req.verb, req.path) == Dispatch(RemoveAll(req.path, Mount));
    }
    HandleOnRoute(s, req, now, ok, DeleteRoute(x));
    DeleteRejectsOnlyZero(s, x, ok);
  }

  // ---------------------------------------------------------------------------
  // Whole-system invariants
  // ---------------------------------------------------------------------------

  /** Every route keeps the table valid: unique positive ids below the counter, flags 0 or 1. */
  lemma ApplyKeepsValid(s: Store, route: Route, body: Body, now: int, ok: bool)
    requires Valid(s)
    ensures Valid(Apply(s, route, body, now, ok).store)
  {
    match route
    case CreateRoute => CreateStep(s, body, now, ok);
    case CompleteRoute(id) => CompleteStep(s, Some(id), ok);
    case UpdateRoute(id) => UpdateStep(s, Some(id), body, ok);
    case DeleteRoute(id) => DeleteStep(s, Some(id), ok);
    case _ =>
  }

  /**
    Every route is a legal step: creation times never change, a completed row
    stays completed, and a deleted id never comes back.
   */
  lemma ApplyEvolves(s: Store, route: Route, body: Body, now: int, ok: bool)
    requires Valid(s)
    ensures Evolves(s, Apply(s, route, body, now, ok).store)
  {
    match route
    case CreateRoute => CreateStep(s, body, now, ok);
    case CompleteRoute(id) => CompleteStep(s, Some(id), ok);
    case UpdateRoute(id) => UpdateStep(s, Some(id), body, ok);
    case DeleteRoute(id) => DeleteStep(s, Some(id), ok);
    case _ => EvolvesRefl(s);
  }

  /** Whatever arrives, a valid table stays valid and evolves legally. */
  lemma HandleKeepsInvariants(s: Store, req: Request, now: int, ok: bool)
    requires Valid(s)
    ensures Valid(Handle(s, req, now, ok).store)
    ensures Evolves(s, Handle(s, req, now, ok).store)
  {
    ApplyKeepsValid(s, RouteOf(req.verb, req.path), req.body, now, ok);
    ApplyEvolves(s, RouteOf(req.verb, req.path), req.body, now, ok);
  }
}
