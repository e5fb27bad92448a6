/**
 Properties of `Router.cb`. The recursive dispatch of module Routing is
 related to a closed-form description of its trace: the entries the chain
 reaches are invoked in order, each with the arguments its predecessor passed
 to the continuation; the route runs only if the chain falls off its end or
 meets a non-callable entry; `next` comes last. The ordering, short-circuit,
 case-insensitivity and registration properties are drawn from that form.
 */
module DispatchProperties {
  import opened Text
  import opened Routing

  /** The first index at or after `i` whose entry does not continue, or the
      end of the chain. */
  function Halt(mw: seq<Middleware>, i: nat): (n: nat)
    requires i <= |mw|
    ensures i <= n <= |mw|
    ensures forall k :: i <= k < n ==> mw[k].Continue?
    ensures n < |mw| ==> !mw[n].Continue?
    decreases |mw| - i
  {
    if i == |mw| || !mw[i].Continue? then i else Halt(mw, i + 1)
  }

  /** The arguments an entry hands to its continuation. */
  function Passed(m: Middleware): seq<Value>
  {
    if m.Continue? then m.args else []
  }

  /** Invocations of entries `i` to `m - 1`, entry `i` receiving `a` and each
      later one what its predecessor passed on. */
  function Invocations(mw: seq<Middleware>, i: nat, a: seq<Value>, m: nat): seq<Event>
    requires i <= m <= |mw|
  {
    seq(m - i, k requires 0 <= k < m - i =>
      MiddlewareInvoked(i + k, if k == 0 then a else Passed(mw[i + k - 1])))
  }

  /** The chain reaches the route table: it halts at its end or at an entry
      that is not a function. */
  predicate FallsThrough(mw: seq<Middleware>)
  {
    var n := Halt(mw, 0);
    n == |mw| || mw[n].NotCallable?
  }

  /** Closed form of `runMiddleware(i, ...a)`. */
  function ChainReference(r: Router, req: Request, i: nat, a: seq<Value>): seq<Event>
    requires i <= |r.middlewares|
  {
    var mw := r.middlewares;
    var n := Halt(mw, i);
    if n < |mw| && mw[n].Stop? then
      Invocations(mw, i, a, n + 1)
    else
      Invocations(mw, i, a, n) + Resolve(r, req)
  }

  /** Closed form of `cb`. */
  function DispatchReference(r: Router, req: Request, args: seq<Value>): seq<Event>
  {
    (if StartsWith(req.url, r.root) then ChainReference(r, req, 0, []) else [])
    + [NextInvoked(args)]
  }

  lemma InvocationsCons(mw: seq<Middleware>, i: nat, a: seq<Value>, m: nat)
    requires i < m <= |mw| && mw[i].Continue?
    ensures Invocations(mw, i, a, m)
         == [MiddlewareInvoked(i, a)] + Invocations(mw, i + 1, mw[i].args, m)
  {
    var lhs := Invocations(mw, i, a, m);
    var rhs := [MiddlewareInvoked(i, a)] + Invocations(mw, i + 1, mw[i].args, m);
    assert |lhs| == |rhs|;
    forall k | 0 <= k < |lhs|
      ensures lhs[k] == rhs[k]
    {
      if k == 0 {
        assert lhs[0] == MiddlewareInvoked(i, a);
      } else {
        var tail := Invocations(mw, i + 1, mw[i].args, m);
        assert rhs[k] == tail[k - 1];
        assert tail[k - 1] == MiddlewareInvoked(i + k, if k == 1 then mw[i].args else Passed(mw[i + k - 1]));
        assert lhs[k] == MiddlewareInvoked(i + k, Passed(mw[i + k - 1]));
      }
    }
  }

  lemma ChainReferenceCons(r: Router, req: Request, i: nat, a: seq<Value>)
    requires i < |r.middlewares| && r.middlewares[i].Continue?
    ensures ChainReference(r, req, i, a)
         == [MiddlewareInvoked(i, a)] + ChainReference(r, req, i + 1, r.middlewares[i].args)
  {
    var mw := r.middlewares;
    var n := Halt(mw, i);
    assert n == Halt(mw, i + 1);
    var stopped := n < |mw| && mw[n].Stop?;
    var m := if stopped then n + 1 else n;
    var rest := if stopped then [] else Resolve(r, req);
    assert ChainReference(r, req, i, a) == Invocations(mw, i, a, m) + rest;
    assert ChainReference(r, req, i + 1, mw[i].args) == Invocations(mw, i + 1, mw[i].args, m) + rest;
    InvocationsCons(mw, i, a, m);
  }

  /** The recursive chain driver agrees with the closed form from any start. */
  lemma {:induction false} ChainMatchesReference(r: Router, req: Request, i: nat, a: seq<Value>)
    requires i <= |r.middlewares|
    ensures RunMiddleware(r, req, i, a) == ChainReference(r, req, i, a)
    decreases |r.middlewares| - i
  {
    var mw := r.middlewares;
    if i == |mw| || mw[i].NotCallable? {
      assert Invocations(mw, i, a, i) == [];
    } else if mw[i].Stop? {
      assert Invocations(mw, i, a, i + 1) == [MiddlewareInvoked(i, a)];
    } else {
      ChainMatchesReference(r, req, i + 1, mw[i].args);
      ChainReferenceCons(r, req, i, a);
    }
  }

  /** `cb` agrees with the closed form on every router, request and argument list. */
  lemma DispatchMatchesReference(r: Router, req: Request, args: seq<Value>)
    ensures Cb(r, req, args) == DispatchReference(r, req, args)
  {
    if StartsWith(req.url, r.root) {
      ChainMatchesReference(r, req, 0, []);
    }
  }

  /** The conditions under which entry `j` is invoked with `b` when the
      chain starts at entry 0 with no extra arguments. */
  predicate Reaches(mw: seq<Middleware>, j: nat, b: seq<Value>)
  {
    && j < |mw|
    && !mw[j].NotCallable?
    && (forall k :: 0 <= k < j ==> mw[k].Continue?)
    && b == (if j == 0 then [] else mw[j - 1].args)
  }

  lemma ChainInvokedOnlyIf(r: Router, req: Request, j: nat, b: seq<Value>)
    requires MiddlewareInvoked(j, b) in ChainReference(r, req, 0, [])
    ensures Reaches(r.middlewares, j, b)
  {
    var mw := r.middlewares;
    var n := Halt(mw, 0);
    var m := if n < |mw| && mw[n].Stop? then n + 1 else n;
    var inv := Invocations(mw, 0, [], m);
    var e := MiddlewareInvoked(j, b);
    if !(n < |mw| && mw[n].Stop?) {
      assert e !in Resolve(r, req);
    }
    assert e in inv;
    var k :| 0 <= k < |inv| && inv[k] == e;
    assert k == j;
  }

  lemma ChainInvokedIf(r: Router, req: Request, j: nat, b: seq<Value>)
    requires Reaches(r.middlewares, j, b)
    ensures MiddlewareInvoked(j, b) in ChainReference(r, req, 0, [])
  {
    var mw := r.middlewares;
    var n := Halt(mw, 0);
    var m := if n < |mw| && mw[n].Stop? then n + 1 else n;
    var inv := Invocations(mw, 0, [], m);
    assert j < m;
    assert inv[j] == MiddlewareInvoked(j, b);
    assert ChainReference(r, req, 0, [])[j] == inv[j];
  }

  /** Middleware `j` runs exactly when the URL has the root as prefix, every
      earlier entry continued and entry `j` is a function; it receives no extra
      arguments if it is first and otherwise what entry `j - 1` passed on. */
  lemma MiddlewareInvokedIff(r: Router, req: Request, args: seq<Value>, j: nat, b: seq<Value>)
    ensures MiddlewareInvoked(j, b) in Cb(r, req, args) <==>
      && StartsWith(req.url, r.root)
      && j < |r.middlewares|
      && !r.middlewares[j].NotCallable?
      && (forall k :: 0 <= k < j ==> r.middlewares[k].Continue?)
      && b == (if j == 0 then [] else r.middlewares[j - 1].args)
  {
    DispatchMatchesReference(r, req, args);
    var e := MiddlewareInvoked(j, b);
    if StartsWith(req.url, r.root) {
      var c := ChainReference(r, req, 0, []);
      assert Cb(r, req, args) == c + [NextInvoked(args)];
      assert e in Cb(r, req, args) <==> e in c;
      if e in c {
        ChainInvokedOnlyIf(r, req, j, b);
      }
      if Reaches(r.middlewares, j, b) {
        ChainInvokedIf(r, req, j, b);
      }
    }
  }

  /** A reached middleware that never continues stops the chain: no later
      middleware and no route handler runs, and `next` still comes last. */
  lemma ShortCircuit(r: Router, req: Request, args: seq<Value>, s: nat)
    requires s < |r.middlewares| && r.middlewares[s].Stop?
    requires forall k :: 0 <= k < s ==> r.middlewares[k].Continue?
    ensures forall e :: e in Cb(r, req, args) && e.MiddlewareInvoked? ==> e.index <= s
    ensures forall e :: e in Cb(r, req, args) ==> !e.HandlerInvoked?
    ensures Cb(r, req, args)[|Cb(r, req, args)| - 1] == NextInvoked(args)
  {
    DispatchMatchesReference(r, req, args);
    var mw := r.middlewares;
    if StartsWith(req.url, r.root) {
      assert Halt(mw, 0) == s;
      var inv := Invocations(mw, 0, [], s + 1);
      assert Cb(r, req, args) == inv + [NextInvoked(args)];
      forall e | e in Cb(r, req, args) && e.MiddlewareInvoked?
        ensures e.index <= s
      {
        assert e in inv;
      }
    }
  }

  /** A route handler runs exactly when the URL has the root as prefix, the
      chain falls through to the route table, the URL is a key of it, and the
      handler is that entry's `all` or its lower-cased-method handler. */
  lemma HandlerInvokedIff(r: Router, req: Request, args: seq<Value>, id: HandlerId)
    ensures HandlerInvoked(id) in Cb(r, req, args) <==>
      && StartsWith(req.url, r.root)
      && FallsThrough(r.middlewares)
      && req.url in r.routes
      && var h := r.routes[req.url];
         (ALL in h && h[ALL] == id) || (ToLower(req.verb) in h && h[ToLower(req.verb)] == id)
  {
    DispatchMatchesReference(r, req, args);
    var mw := r.middlewares;
    var e := HandlerInvoked(id);
    if StartsWith(req.url, r.root) {
      var n := Halt(mw, 0);
      if n < |mw| && mw[n].Stop? {
        var inv := Invocations(mw, 0, [], n + 1);
        assert e !in inv;
      } else {
        var inv := Invocations(mw, 0, [], n);
        assert e !in inv;
        assert Cb(r, req, args) == inv + Resolve(r, req) + [NextInvoked(args)];
        assert e in Cb(r, req, args) <==> e in Resolve(r, req);
      }
    }
  }

  /** Every middleware invocation precedes every handler invocation, and
      middlewares run in strictly increasing index order. */
  lemma DispatchOrder(r: Router, req: Request, args: seq<Value>)
    ensures var t := Cb(r, req, args);
      forall p, q :: 0 <= p < q < |t| && t[p].MiddlewareInvoked? && t[q].MiddlewareInvoked? ==>
        t[p].index < t[q].index
    ensures var t := Cb(r, req, args);
      forall p, q :: 0 <= p < q < |t| && t[p].HandlerInvoked? ==> !t[q].MiddlewareInvoked?
  {
    DispatchMatchesReference(r, req, args);
    var mw := r.middlewares;
    if StartsWith(req.url, r.root) {
      var n := Halt(mw, 0);
      var m := if n < |mw| && mw[n].Stop? then n + 1 else n;
      var inv := Invocations(mw, 0, [], m);
      var rest := if n < |mw| && mw[n].Stop? then [] else Resolve(r, req);
      assert Cb(r, req, args) == inv + rest + [NextInvoked(args)];
      ShapeOrder(inv, rest, NextInvoked(args));
    } else {
      ShapeOrder([], [], NextInvoked(args));
    }
  }

  /** Numbered middleware invocations, then handlers, then one other event:
      the order `DispatchOrder` states. */
  lemma ShapeOrder(inv: seq<Event>, rest: seq<Event>, last: Event)
    requires forall p :: 0 <= p < |inv| ==> inv[p].MiddlewareInvoked? && inv[p].index == p
    requires forall e :: e in rest ==> e.HandlerInvoked?
    requires !last.MiddlewareInvoked?
    ensures var t := inv + rest + [last];
      forall p, q :: 0 <= p < q < |t| && t[p].MiddlewareInvoked? && t[q].MiddlewareInvoked? ==>
        t[p].index < t[q].index
    ensures var t := inv + rest + [last];
      forall p, q :: 0 <= p < q < |t| && t[p].HandlerInvoked? ==> !t[q].MiddlewareInvoked?
  {
    var t := inv + rest + [last];
    forall p | 0 <= p < |t|
      ensures t[p].MiddlewareInvoked? <==> p < |inv|
      ensures p < |inv| ==> t[p].index == p
    {
      if p < |inv| {
        assert t[p] == inv[p];
      } else if p < |inv| + |rest| {
        assert t[p] == rest[p - |inv|];
        assert rest[p - |inv|] in rest;
      }
    }
  }

  /** Requests whose methods differ only in ASCII case are dispatched alike. */
  lemma MethodCaseInsensitive(r: Router, url: string, m1: string, m2: string, args: seq<Value>)
    requires EqualIgnoringCase(m1, m2)
    ensures Cb(r, Request(url, m1), args) == Cb(r, Request(url, m2), args)
  {
    var req1, req2 := Request(url, m1), Request(url, m2);
    ToLowerIff(m1, m2);
    assert Resolve(r, req1) == Resolve(r, req2);
    if StartsWith(url, r.root) {
      assert ChainReference(r, req1, 0, []) == ChainReference(r, req2, 0, []);
    }
    DispatchMatchesReference(r, req1, args);
    DispatchMatchesReference(r, req2, args);
  }

  /** A route registered with `handle` is what a request for `root + route`
      reaches once every middleware has continued: the chain's invocations,
      then that handler object's `all` and method handlers, then `next`. */
  lemma HandledRouteDispatches(r: Router, route: string, h: RouteHandler, verb: string, args: seq<Value>)
    requires forall k :: 0 <= k < |r.middlewares| ==> r.middlewares[k].Continue?
    ensures var t := Cb(Handle(r, route, h), Request(r.root + route, verb), args);
      && |t| == |r.middlewares| + |RouteEvents(h, verb)| + 1
      && t[|r.middlewares|..] == RouteEvents(h, verb) + [NextInvoked(args)]
  {
    var r' := Handle(r, route, h);
    var req := Request(r.root + route, verb);
    DispatchMatchesReference(r', req, args);
    assert StartsWith(req.url, r'.root);
    assert Halt(r'.middlewares, 0) == |r'.middlewares|;
    var inv := Invocations(r'.middlewares, 0, [], |r'.middlewares|);
    assert Cb(r', req, args) == inv + RouteEvents(h, verb) + [NextInvoked(args)];
  }

  /** With the default root every URL passes the prefix check. */
  lemma DefaultRootNeverDeclines(r: Router, req: Request, args: seq<Value>)
    requires r.root == New(DEFAULT_ROOT).root
    ensures Cb(r, req, args) == RunMiddleware(r, req, 0, []) + [NextInvoked(args)]
  {
  }

  /** Registering the same route twice keeps only the later handler object. */
  lemma LastHandleWins(r: Router, route: string, h1: RouteHandler, h2: RouteHandler)
    ensures Handle(Handle(r, route, h1), route, h2) == Handle(r, route, h2)
  {
  }

  /** Two `use` calls append the same as one call with both argument lists. */
  lemma UseTwice(r: Router, m1: seq<Middleware>, m2: seq<Middleware>)
    ensures Use(Use(r, m1), m2) == Use(r, m1 + m2)
  {
  }

  /** A request method that lower-cases to `"all"` selects the `all`
      property as its method handler too, so that handler runs twice. */
  lemma AllMethodRunsAllTwice(h: RouteHandler, verb: string)
    requires ALL in h && ToLower(verb) == ALL
    ensures RouteEvents(h, verb) == [HandlerInvoked(h[ALL]), HandlerInvoked(h[ALL])]
  {
  }

  /** `new Router()`, `handle("/users", { get })`, request `GET /users`:
      the `get` handler runs once, then `next`. */
  lemma UsersExample(args: seq<Value>)
    ensures Cb(Handle(New(DEFAULT_ROOT), "/users", map["get" := 1]), Request("/users", "GET"), args)
         == [HandlerInvoked(1), NextInvoked(args)]
  {
    assert ToLower("GET") == "get" by {
      assert ToLower("T") == "t";
      assert ToLower("ET") == "et";
    }
    assert "" + "/users" == "/users";
  }

  /** `new Router("/admin")` with one middleware that never continues: a
      request under `/admin` runs only that middleware, then `next`. */
  lemma RejectingAdminExample(args: seq<Value>)
    ensures Cb(Use(Handle(New("/admin"), "/dashboard", map["get" := 2]), [Stop]),
               Request("/admin/dashboard", "GET"), args)
         == [MiddlewareInvoked(0, []), NextInvoked(args)]
  {
    assert StartsWith("/admin/dashboard", "/admin");
  }
}
