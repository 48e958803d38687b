/** Request dispatch in the jobs router. Routes are tried in the order they are declared, and
    the first whose method and path pattern fit the request handles it. A path is its list
    of '/'-separated segments ("/" is the empty list, "/my-jobs" is ["my-jobs"]); a pattern
    segment is a literal or a ":name" parameter, which takes any one non-empty segment.
    A router made by `express.Router()` is not case-sensitive, so a literal segment fits
    any spelling that lowercases to the same text. */
module JobRouter {
  import opened Common
  import opened Text

  datatype Segment = Lit(text: string) | Param(name: string)

  datatype Handler = CreateJob | MyJobs | AllJobs | GetJob | UpdateJob | DeleteJob | MatchedJobs

  /** `gate` is the role list of the route's authMiddleware, `None` for a public route. */
  datatype Route = Route(verb: string, pattern: seq<Segment>, gate: Option<seq<string>>, handler: Handler)

  predicate SegmentFits(p: Segment, s: string) {
    match p
    case Lit(t) => LowerStr(s) == LowerStr(t)
    case Param(_) => s != ""
  }

  predicate Fits(r: Route, verb: string, path: seq<string>) {
    r.verb == verb && |r.pattern| == |path|
    && forall i :: 0 <= i < |path| ==> SegmentFits(r.pattern[i], path[i])
  }

  /** The route that handles the request: the first one that fits, `None` for a 404. */
  function Dispatch(routes: seq<Route>, verb: string, path: seq<string>): (r: Option<Route>)
    ensures r.Some? ==> r.value in routes && Fits(r.value, verb, path)
    ensures r.None? <==> forall k :: 0 <= k < |routes| ==> !Fits(routes[k], verb, path)
  {
    if routes == [] then None
    else if Fits(routes[0], verb, path) then Some(routes[0])
    else
      var r := Dispatch(routes[1..], verb, path);
      assert forall k :: 1 <= k < |routes| ==> routes[k] == routes[1..][k - 1];
      r
  }

  /** Dispatch picks the earliest fitting route: no route before it fits. */
  lemma {:induction false} DispatchFirst(routes: seq<Route>, verb: string, path: seq<string>, i: nat)
    requires i < |routes| && Fits(routes[i], verb, path)
    requires forall k :: 0 <= k < i ==> !Fits(routes[k], verb, path)
    ensures Dispatch(routes, verb, path) == Some(routes[i])
  {
    if i > 0 {
      DispatchFirst(routes[1..], verb, path, i - 1);
    }
  }

  const Id: seq<Segment> := [Param("id")]
  const Staff: Option<seq<string>> := Some(["employer", "admin"])

  const CreateRoute: Route := Route("POST", [], Staff, CreateJob)
  const MyJobsRoute: Route := Route("GET", [Lit("my-jobs")], Some(["employer"]), MyJobs)
  const AllJobsRoute: Route := Route("GET", [], None, AllJobs)
  const GetRoute: Route := Route("GET", Id, None, GetJob)
  const UpdateRoute: Route := Route("PUT", Id, Staff, UpdateJob)
  const DeleteRoute: Route := Route("DELETE", Id, Staff, DeleteJob)
  const MatchedRoute: Route := Route("GET", [Lit("matched")], Some(["candidate"]), MatchedJobs)

  /** The routes in the order the router file declares them. */
  const Declared: seq<Route> :=
    [CreateRoute, MyJobsRoute, AllJobsRoute, GetRoute, UpdateRoute, DeleteRoute, MatchedRoute]

  /** As declared, GET /matched, in any spelling of its letters' case, is taken by GET /:id
      with that segment as id: public, and the job matcher is never run. */
  lemma MatchedCapturedById(segment: string)
    requires LowerStr(segment) == "matched"
    ensures Dispatch(Declared, "GET", [segment]) == Some(GetRoute)
    ensures GetRoute.gate.None?
  {
    assert |segment| == 7;
    assert Fits(GetRoute, "GET", [segment]);
    MatchedIsNotMyJobs(segment);
    DispatchFirst(Declared, "GET", [segment], 3);
  }

  /** No spelling of "matched" fits the literal my-jobs segment. */
  lemma MatchedIsNotMyJobs(segment: string)
    requires LowerStr(segment) == "matched"
    ensures !Fits(MyJobsRoute, "GET", [segment])
  {
    LowerStrNoUpper("my-jobs");
    assert LowerStr(segment)[1] != LowerStr("my-jobs")[1];
    assert !SegmentFits(MyJobsRoute.pattern[0], [segment][0]);
  }

  /** Whatever dispatch yields was declared no later than any route that fits. */
  lemma {:induction false} DispatchNoLater(routes: seq<Route>, verb: string, path: seq<string>, i: nat)
    requires i < |routes| && Fits(routes[i], verb, path)
    ensures Dispatch(routes, verb, path).Some?
    ensures Dispatch(routes, verb, path).value in routes[..i + 1]
  {
    if !Fits(routes[0], verb, path) {
      DispatchNoLater(routes[1..], verb, path, i - 1);
      assert routes[1..][..i] == routes[1..i + 1];
    }
  }

  /** As declared, no request at all reaches the matched-jobs handler. */
  lemma MatchedUnreachable(verb: string, path: seq<string>)
    ensures Dispatch(Declared, verb, path) != Some(MatchedRoute)
  {
    FitsMatchedOnly(verb, path);
    if Fits(MatchedRoute, verb, path) {
      assert path == [path[0]];
      MatchedCapturedById(path[0]);
    }
  }

  /** GET /my-jobs, in any spelling of its letters' case, is declared before /:id and
      reaches its handler behind the employer gate. */
  lemma MyJobsReachable(segment: string)
    requires LowerStr(segment) == "my-jobs"
    ensures Dispatch(Declared, "GET", [segment]) == Some(MyJobsRoute)
    ensures MyJobsRoute.gate == Some(["employer"])
  {
    LowerStrNoUpper("my-jobs");
    assert Fits(MyJobsRoute, "GET", [segment]);
    DispatchFirst(Declared, "GET", [segment], 1);
  }

  /** Upper-case spellings are not sent to /:id: GET /MY-JOBS is the employer's listing. */
  lemma UpperCaseMyJobsReachable()
    ensures Dispatch(Declared, "GET", ["MY-JOBS"]) == Some(MyJobsRoute)
  {
    assert LowerStr("MY-JOBS") == "my-jobs";
    MyJobsReachable("MY-JOBS");
  }

  /** The evident intent: the literal /matched route declared ahead of /:id. */
  const Intended: seq<Route> :=
    [CreateRoute, MyJobsRoute, AllJobsRoute, MatchedRoute, GetRoute, UpdateRoute, DeleteRoute]

  /** In the intended order GET /matched reaches the matcher behind the candidate gate. */
  lemma IntendedReachesMatched(segment: string)
    requires LowerStr(segment) == "matched"
    ensures Dispatch(Intended, "GET", [segment]) == Some(MatchedRoute)
    ensures MatchedRoute.gate == Some(["candidate"])
  {
    LowerStrNoUpper("matched");
    assert Fits(MatchedRoute, "GET", [segment]);
    MatchedIsNotMyJobs(segment);
    DispatchFirst(Intended, "GET", [segment], 3);
  }

  /** The reordering changes nothing else: every request other than GET /matched, in any
      spelling of its case, goes where it went before. */
  lemma IntendedAgreesElsewhere(verb: string, path: seq<string>)
    requires !(verb == "GET" && |path| == 1 && LowerStr(path[0]) == "matched")
    ensures Dispatch(Intended, verb, path) == Dispatch(Declared, verb, path)
  {
    var before := [CreateRoute, MyJobsRoute, AllJobsRoute];
    var after := [GetRoute, UpdateRoute, DeleteRoute];
    assert Intended == before + [MatchedRoute] + after;
    assert Declared == (before + after) + [MatchedRoute];
    FitsMatchedOnly(verb, path);
    DispatchSkip(before, after, MatchedRoute, verb, path);
    DispatchDropLast(before + after, MatchedRoute, verb, path);
  }

  /** Only GET /matched, in some spelling of its case, fits the matched-jobs route. */
  lemma FitsMatchedOnly(verb: string, path: seq<string>)
    ensures Fits(MatchedRoute, verb, path) ==> verb == "GET" && |path| == 1 && LowerStr(path[0]) == "matched"
  {
    LowerStrNoUpper("matched");
  }

  /** A route that does not fit can be removed from anywhere in the table. */
  lemma {:induction false} DispatchSkip(a: seq<Route>, b: seq<Route>, r: Route, verb: string, path: seq<string>)
    requires !Fits(r, verb, path)
    ensures Dispatch(a + [r] + b, verb, path) == Dispatch(a + b, verb, path)
  {
    if a == [] {
      assert a + [r] + b == [r] + b && a + b == b;
      assert ([r] + b)[1..] == b;
    } else {
      assert (a + [r] + b)[1..] == a[1..] + [r] + b;
      assert (a + b)[1..] == a[1..] + b;
      DispatchSkip(a[1..], b, r, verb, path);
    }
  }

  lemma DispatchDropLast(a: seq<Route>, r: Route, verb: string, path: seq<string>)
    requires !Fits(r, verb, path)
    ensures Dispatch(a + [r], verb, path) == Dispatch(a, verb, path)
  {
    DispatchSkip(a, [], r, verb, path);
    assert a + [r] + [] == a + [r];
    assert a + [] == a;
  }
}
