/** Express routing as the two route files use it: a router tries its routes in registration order;
    the first whose verb and path pattern match runs its middleware chain (`userAuth` then
    `checkRole(...)`, for guarded routes) and then its handler. */
module Router {
  import opened Common
  import opened UserAuth
  import opened CheckRole

  datatype Verb = Get | Post | Put | Delete

  /** A path segment of a route pattern: literal text, or a `:name` parameter. */
  datatype Segment = Lit(text: string) | Param(name: string)

  /** No middleware, or `userAuth` followed by `checkRole(allowed)`. */
  datatype Guard = Public | Guarded(allowed: AllowedRoles)

  datatype Route<H> = Route(verb: Verb, pattern: seq<Segment>, guard: Guard, handler: H)

  /** A parameter matches any non-empty segment; a literal matches itself. */
  predicate SegmentMatches(s: Segment, part: string) {
    match s
    case Lit(t) => part == t
    case Param(_) => part != ""
  }

  predicate Applies<H>(r: Route<H>, verb: Verb, path: seq<string>) {
    && r.verb == verb
    && |r.pattern| == |path|
    && forall i :: 0 <= i < |path| ==> SegmentMatches(r.pattern[i], path[i])
  }

  /** The index of the first route, from `from` on, that applies. */
  function ResolveFrom<H>(routes: seq<Route<H>>, from: nat, verb: Verb, path: seq<string>): (r: Option<nat>)
    requires from <= |routes|
    ensures r.Some? ==> from <= r.value < |routes| && Applies(routes[r.value], verb, path)
    ensures r.Some? ==> forall i :: from <= i < r.value ==> !Applies(routes[i], verb, path)
    ensures r.None? ==> forall i :: from <= i < |routes| ==> !Applies(routes[i], verb, path)
    decreases |routes| - from
  {
    if from == |routes| then None
    else if Applies(routes[from], verb, path) then Some(from)
    else ResolveFrom(routes, from + 1, verb, path)
  }

  /** The index of the route that handles a request: the first that applies. */
  function Resolve<H>(routes: seq<Route<H>>, verb: Verb, path: seq<string>): (r: Option<nat>)
    ensures r.Some? ==> r.value < |routes| && Applies(routes[r.value], verb, path)
    ensures r.Some? ==> forall i :: 0 <= i < r.value ==> !Applies(routes[i], verb, path)
    ensures r.None? ==> forall i :: 0 <= i < |routes| ==> !Applies(routes[i], verb, path)
  {
    ResolveFrom(routes, 0, verb, path)
  }

  datatype Outcome<H> =
    | NoRoute
    | Refused(status: int, message: string)
    | Invoke(route: Route<H>, caller: Option<UserInfo>)

  /** Handling one request with an `Authorization` header (`verify` is `jwt.verify`). A handler runs
      only for the first route that applies; on a guarded route exactly for a caller whom `userAuth`
      authenticated and whose role that route allows; on a public route always, with no user info.
      A refusal is the reply of `userAuth` or of `checkRole`, whichever stopped the request. */
  function Dispatch<H>(routes: seq<Route<H>>, verb: Verb, path: seq<string>, header: Option<string>,
                       verify: string -> Option<Claims>): (d: Outcome<H>)
    ensures d.NoRoute? <==> Resolve(routes, verb, path).None?
    ensures d.Invoke? ==> Resolve(routes, verb, path).Some?
                          && d.route == routes[Resolve(routes, verb, path).value]
    ensures d.Invoke? ==> d.route in routes && Applies(d.route, verb, path)
    ensures d.Invoke? ==> (d.caller.None? <==> d.route.guard.Public?)
    ensures d.Invoke? && d.route.guard.Guarded? ==>
              && Authenticate(header, verify) == Authenticated(d.caller.value)
              && d.caller.value.role in Normalise(d.route.guard.allowed).roles
    ensures d.Refused? ==> d.status == 401 || d.status == 403
    ensures Resolve(routes, verb, path).Some? && routes[Resolve(routes, verb, path).value].guard.Public? ==>
              d == Invoke(routes[Resolve(routes, verb, path).value], None)
    ensures Resolve(routes, verb, path).Some? && routes[Resolve(routes, verb, path).value].guard.Guarded? ==>
              var route, auth := routes[Resolve(routes, verb, path).value], Authenticate(header, verify);
              && (auth.Unauthorized? ==> d == Refused(auth.status, auth.message))
              && (auth.Authenticated? && auth.info.role in Normalise(route.guard.allowed).roles ==>
                    d == Invoke(route, Some(auth.info)))
              && (auth.Authenticated? && auth.info.role !in Normalise(route.guard.allowed).roles ==>
                    d == Refused(403, "Access Denied: Unauthorized role"))
  {
    match Resolve(routes, verb, path)
    case None => NoRoute
    case Some(i) =>
      var route := routes[i];
      match route.guard
      case Public => Invoke(route, None)
      case Guarded(allowed) =>
        match Authenticate(header, verify)
        case Unauthorized(status, message) => Refused(status, message)
        case Authenticated(info) =>
          match Check(allowed, Some(info))
          case Next => Invoke(route, Some(info))
          case Denied(status, _, message) => Refused(status, message)
  }
}
