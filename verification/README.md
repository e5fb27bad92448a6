# Router dispatch model

A Dafny model of the `Router` class of the `@pxe/router` package
(`src/index.ts`): a middleware for the `@pxe/server` host that owns a root
prefix, a table of route handler objects and a chain of middlewares.

- `Text` models the two string built-ins the router uses: `startsWith` (the
  root prefix check) and `toLowerCase` (choosing a method handler), the
  latter on ASCII letters.
- `Routing` holds the router state as an immutable record (`root`,
  `routes: map<string, RouteHandler>`, `middlewares: seq<Middleware>`),
  the constructor's root normalisation, `handle`, `use`, and the dispatch
  callback `cb` as a pure function returning the ordered trace of the calls it
  makes: middleware `i` invoked with its extra arguments, a route handler
  invoked, and the outer `next` invoked with its arguments.
- `DispatchProperties` gives a closed-form description of that trace and
  proves the recursive dispatch equal to it for every router, request and
  argument list. The ordering, short-circuit, route-selection,
  case-insensitivity and registration properties are derived from it.

A middleware is represented by what it does for the request being
dispatched: `Continue(args)` calls its continuation once with `args`,
`Stop` returns without calling it, and `NotCallable` is an entry that is not a
function. A request reaches each entry at most once, so one behaviour per
entry covers every middleware. A router mounted in another router's chain
is one such entry: `Routing.Cb` always ends by calling `next` with the
arguments it received, so to the enclosing chain it is `Continue` with those
arguments. A route handler object is the map from its
function-valued property names (`"get"`, `"post"`, …, `"all"`) to handler
identities.

Behaviour of the code that the model keeps and that a reader might not expect:

- Only the exact root `"/"` is normalised to `""`. Any other root is kept
  as given, trailing slash included.
- `handle` stores the handler object under `root + route` exactly as given,
  and a later registration for the same key silently replaces the earlier one.
- `use` only appends entries. A router added with `use` keeps its own root.
- Every route key is a literal path, and lookup is by the exact request URL.
- Entry 0 of the chain receives no extra arguments, not the arguments `cb`
  was called with. Each later entry receives what its predecessor passed to
  the continuation. `next` always receives `cb`'s own arguments.
- A non-callable entry ends the chain at once: the route runs and no later
  entry is invoked, even one that is a function.
- The method handler is the property named by the lower-cased method, looked
  up like any other property. A request whose method lower-cases to `"all"`
  therefore runs the `all` handler twice (`AllMethodRunsAllTwice`).

## Model

| member | source | states |
|---|---|---|
| `Routing.New` | src/index.ts:80-87 | a new router has no routes and no middlewares; the default root `"/"` is stored so that every URL starts with it; any other root is kept unchanged |
| `Routing.Handle` | src/index.ts:101-103 | the handler object is stored under exactly `root + route`, replacing an earlier one; every other key and its handler, the root and the chain are unchanged |
| `Routing.Use` | src/index.ts:109-111 | the new entries follow the existing ones in argument order; the existing entries, the root and the routes are unchanged |
| `Routing.RouteEvents` | src/index.ts:136-142 | only handlers run; a handler runs iff it is the `all` property or the property named by the lower-cased method; each present one runs exactly once; with both present `all` comes first; with neither nothing runs |
| `Routing.Resolve` | src/index.ts:134-143 | route resolution invokes only handlers; a handler runs iff the URL is exactly a key of the route table and the handler is that entry's `all` or lower-cased-method handler; an unmatched URL runs nothing |
| `Routing.RunMiddleware` | src/index.ts:121-143 | the chain driver never calls `next`, and invokes only entries at or after its start index and inside the chain |
| `Routing.Cb` | src/index.ts:119-150 | `next` is called exactly once, as the last step, with `cb`'s own arguments; a URL outside the root gives a trace of that call alone |
| `Text.ToLower` | src/index.ts:140 | the result has the input's length, contains no upper-case ASCII letter, and equals the input ignoring case |
| `Text.ToLowerIff` | src/index.ts:140 | two strings lower-case to the same string iff they are equal ignoring ASCII case |
| `Text.StartsWith` | src/index.ts:145 | the URL starts with the root iff the root is no longer than the URL and agrees with it character by character |
| `DispatchProperties.Halt` | src/index.ts:125 | the chain stops at the first entry from the start index that does not continue, or at the end |
| `DispatchProperties.ChainMatchesReference` | src/index.ts:121-143 | from any index and arguments, the recursive driver equals the closed form: reached entries in order, then the route only if the chain fell off its end or met a non-callable entry |
| `DispatchProperties.DispatchMatchesReference` | src/index.ts:119-150 | `cb` equals the closed form for every router, request and argument list |
| `DispatchProperties.MiddlewareInvokedIff` | src/index.ts:121-146 | middleware `j` is invoked with `b` iff the URL starts with the root, every earlier entry continued, entry `j` is callable, and `b` is empty for `j = 0` and otherwise what entry `j - 1` passed on |
| `DispatchProperties.ShortCircuit` | src/index.ts:121-149 | once a reached middleware does not continue, no later middleware and no route handler runs, and `next` still runs last |
| `DispatchProperties.HandlerInvokedIff` | src/index.ts:125-146 | a handler runs iff the URL starts with the root, the chain falls through to the route table, the URL is exactly a key, and the handler is that entry's `all` or lower-cased-method handler |
| `DispatchProperties.DispatchOrder` | src/index.ts:121-143 | middlewares run in strictly increasing index order, and no middleware runs after a route handler |
| `DispatchProperties.MethodCaseInsensitive` | src/index.ts:140-142 | requests whose methods differ only in ASCII case produce the same trace |
| `DispatchProperties.HandledRouteDispatches` | src/index.ts:101-142 | after `handle(route, h)`, a request for `root + route` whose middlewares all continue runs exactly `h`'s handlers after the chain, then `next` |
| `DispatchProperties.DefaultRootNeverDeclines` | src/index.ts:145-146 | with the default root the prefix check never skips the chain |
| `DispatchProperties.LastHandleWins` | src/index.ts:101-103 | registering a route twice is the same as registering only the later handler object |
| `DispatchProperties.UseTwice` | src/index.ts:109-111 | two `use` calls equal one call with the concatenated entries |
| `DispatchProperties.AllMethodRunsAllTwice` | src/index.ts:136-142 | a method that lower-cases to `"all"` runs the `all` handler twice |
| `DispatchProperties.UsersExample` | src/index.ts:101-149 | default root, `handle("/users", {get})`, request `GET /users`: the `get` handler runs once, then `next` |
| `DispatchProperties.RejectingAdminExample` | src/index.ts:109-149 | root `/admin`, one middleware that never continues: a request for `/admin/dashboard` runs that middleware alone, then `next` |

## Left out

- The `Proxy` returned by the constructor, which makes the instance callable (src/index.ts:69, 89-93). This is a JavaScript runtime device, and `cb` is modelled as an ordinary function.
- Promises and `await`. Every callback is taken to finish before the next step. Work a middleware does after its continuation returns, and a middleware that does not await its continuation, are not modelled.
- The `ctx` object passed to every middleware and handler. It is the same object throughout, so the trace omits it. The effects of user callbacks on it are opaque.
- Callbacks that change the request or the router while `cb` runs. The code reads `this.middlewares[i]` afresh at each step (src/index.ts:122), looks up `ctx.request.url` again after the chain has run (src/index.ts:134), and reads `ctx.request.method` after `all` has run (src/index.ts:140). The model assumes that callbacks leave `ctx.request.url`, `ctx.request.method` and the router's routes and middlewares unchanged during dispatch. A middleware that rewrites the URL, or calls `use` or `handle` mid-dispatch, can change which route runs, and the dispatch properties do not cover that case.
- Exceptions thrown by callbacks. They propagate out of `cb` without any handling.
- A middleware that calls its continuation more than once. The code has no guard against it, and the model makes the continuation single-shot.
- Plain-object quirks of the route table, such as inherited keys like `"constructor"`. The table is a Dafny `map`.
- Handler object properties that are not functions. They are skipped by the `typeof` checks, so the model leaves them out of the handler map. A falsy handler object, such as `handle(r, undefined)`, runs nothing, and so does an empty handler map.
- Text.ToLower: lower-cases ASCII letters only, not the full Unicode case mapping of `toLowerCase`. HTTP method tokens are ASCII.
- Strings are sequences of Unicode scalar values, not UTF-16 code units. `startsWith` is modelled as the sequence prefix test.
