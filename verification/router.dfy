/**
 The `Router` class of src/index.ts: a root prefix, a table of route handler
 objects keyed by full path, and a chain of middlewares, together with the
 callback `cb` the host server invokes once per request.

 Dispatch is a pure function from the router state, the request and the
 arguments `cb` was called with to the ordered trace of callbacks it makes.
 Every callback is taken to complete before the next step starts, so the
 trace is the order in which the awaited calls happen.
 */
module Routing {
  import opened Text

  /** An extra argument passed through the middleware chain; opaque to the router. */
  type Value = int

  /** Identifies one user-supplied handler function. */
  type HandlerId = nat

  /** A route handler object: each property whose value is a function,
      by property name (`"get"`, `"post"`, …, and `"all"`). */
  type RouteHandler = map<string, HandlerId>

  /** The property consulted whatever the request method. */
  const ALL: string := "all"

  /** The root a router gets when none is given. */
  const DEFAULT_ROOT: string := "/"

  /** What one middleware entry does for the request at hand. A request
      reaches each entry at most once, so one behaviour per entry is general. */
  datatype Middleware =
    | Continue(args: seq<Value>) // calls its continuation once, with `args`
    | Stop                       // returns without calling its continuation
    | NotCallable                // the entry is not a function

  datatype Router = Router(
    root: string,
    routes: map<string, RouteHandler>,
    middlewares: seq<Middleware>)

  /** The two fields of `ctx.request` that dispatch reads. */
  datatype Request = Request(url: string, verb: string) // `verb` is `ctx.request.method`

  /** One observable step of a dispatch. */
  datatype Event =
    | MiddlewareInvoked(index: nat, args: seq<Value>)
    | HandlerInvoked(handler: HandlerId)
    | NextInvoked(args: seq<Value>)

  /** `new Router(root)`: empty tables, and the root `"/"` becomes `""` so
      that it is a prefix of every URL. */
  function New(root: string): (r: Router)
    ensures r.routes == map[] && r.middlewares == []
    ensures root == DEFAULT_ROOT ==> forall url :: StartsWith(url, r.root)
    ensures root != DEFAULT_ROOT ==> r.root == root
  {
    Router(if root == DEFAULT_ROOT then "" else root, map[], [])
  }

  /** `handle(route, handler)`: stores `handler` under `root + route`,
      replacing what was there and leaving every other key alone. */
  function Handle(r: Router, route: string, handler: RouteHandler): (r': Router)
    ensures r'.root == r.root && r'.middlewares == r.middlewares
    ensures r'.routes.Keys == r.routes.Keys + {r.root + route}
    ensures r'.routes[r.root + route] == handler
    ensures forall k :: k in r.routes && k != r.root + route ==> r'.routes[k] == r.routes[k]
  {
    r.(routes := r.routes[r.root + route := handler])
  }

  /** `use(...m)`: appends the entries, in argument order, after the
      existing ones. */
  function Use(r: Router, m: seq<Middleware>): (r': Router)
    ensures r'.root == r.root && r'.routes == r.routes
    ensures |r'.middlewares| == |r.middlewares| + |m|
    ensures r'.middlewares[..|r.middlewares|] == r.middlewares
    ensures forall j :: 0 <= j < |m| ==> r'.middlewares[|r.middlewares| + j] == m[j]
  {
    r.(middlewares := r.middlewares + m)
  }

  /** Running one matched route handler object: `all` first, then the
      property named by the lower-cased method; absent ones are skipped. */
  function RouteEvents(h: RouteHandler, verb: string): (t: seq<Event>)
    ensures forall e :: e in t ==> e.HandlerInvoked?
    ensures forall id :: HandlerInvoked(id) in t <==>
      (ALL in h && h[ALL] == id) || (ToLower(verb) in h && h[ToLower(verb)] == id)
    ensures ALL in h && ToLower(verb) in h ==>
      t == [HandlerInvoked(h[ALL]), HandlerInvoked(h[ToLower(verb)])]
    ensures ALL !in h && ToLower(verb) !in h ==> t == []
    ensures |t| == (if ALL in h then 1 else 0) + (if ToLower(verb) in h then 1 else 0)
  {
    (if ALL in h then [HandlerInvoked(h[ALL])] else [])
    + (if ToLower(verb) in h then [HandlerInvoked(h[ToLower(verb)])] else [])
  }

  /** Route resolution: the handler object stored under exactly the request
      URL, if any; an unmatched URL runs nothing. */
  function Resolve(r: Router, req: Request): (t: seq<Event>)
    ensures forall e :: e in t ==> e.HandlerInvoked?
    ensures req.url !in r.routes ==> t == []
    ensures forall id :: HandlerInvoked(id) in t <==>
      && req.url in r.routes
      && var h := r.routes[req.url];
         (ALL in h && h[ALL] == id) || (ToLower(req.verb) in h && h[ToLower(req.verb)] == id)
  {
    if req.url in r.routes then RouteEvents(r.routes[req.url], req.verb) else []
  }

  /** `runMiddleware(i, ...a)`: invokes entry `i` with `a` when it exists and
      is callable, its continuation running `runMiddleware(i + 1, ...)`;
      otherwise resolves the route. */
  function RunMiddleware(r: Router, req: Request, i: nat, a: seq<Value>): (t: seq<Event>)
    ensures forall e :: e in t ==> !e.NextInvoked?
    ensures forall e :: e in t && e.MiddlewareInvoked? ==> i <= e.index < |r.middlewares|
    decreases |r.middlewares| - i
  {
    if i < |r.middlewares| && !r.middlewares[i].NotCallable? then
      [MiddlewareInvoked(i, a)]
      + (if r.middlewares[i].Continue? then RunMiddleware(r, req, i + 1, r.middlewares[i].args) else [])
    else
      Resolve(r, req)
  }

  /** `cb(ctx, next, ...args)`: runs the chain from entry 0 with no extra
      arguments when the URL starts with the root, then always calls `next`
      once, last, with the arguments `cb` itself received. */
  function Cb(r: Router, req: Request, args: seq<Value>): (t: seq<Event>)
    ensures |t| >= 1 && t[|t| - 1] == NextInvoked(args)
    ensures forall k :: 0 <= k < |t| - 1 ==> !t[k].NextInvoked?
    ensures !StartsWith(req.url, r.root) ==> t == [NextInvoked(args)]
  {
    (if StartsWith(req.url, r.root) then RunMiddleware(r, req, 0, []) else [])
    + [NextInvoked(args)]
  }
}
