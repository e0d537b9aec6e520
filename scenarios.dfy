/** Whole-registry consequences of `add` and `execute` on the registrations
    of the repository's tests (src/tests/add.spec.ts, transparent.spec.ts,
    methods.spec.ts, compositeKey.spec.ts), plus two scenarios of this model's
    own: an `EXIT` inside an array, and one handler reused on two routes.
    `pathToRegexp` is left abstract: each scenario states which routes the
    matcher accepts, and says what each handler resolves to (a `jest.fn()`
    mock resolves to `undefined`). */
module Scenarios {
  import opened Wrappers
  import opened Config
  import opened ExitCodes
  import opened OrderedMap
  import opened Chain
  import opened Execution

  const A: HandlerId := 0
  const B: HandlerId := 1
  const C: HandlerId := 2
  const D: HandlerId := 3

  /** `{ transparent: t }` as the `config` argument of `add`. */
  function Transparent(t: bool): Option<Options>
  {
    Some(Options(None, Some(t)))
  }

  /** `{ methods: ms }` as the `config` argument of `add`. */
  function Methods(ms: seq<string>): Option<Options>
  {
    Some(Options(Some(ms), None))
  }

  /** What `execute` invokes for a table and a request. */
  function Run(entries: seq<Entry>, req: Request, matches: Matcher, results: Oracle): seq<HandlerId>
  {
    Invoked(Handlers(Compose(entries, req, matches)), results)
  }

  /** Two routes added, a request to the first: only its handler runs, and
      the table holds two entries. */
  lemma AddTwoRoutes(matches: Matcher, results: Oracle)
    requires matches("/api/a", "/api/a") && !matches("/api/b", "/api/a")
    requires forall k, h :: results(k, h) == None
    ensures var r := Set(Set([], "/api/a", Spread(None, Single(A))), "/api/b", Spread(None, Single(B)));
            |r| == 2 && Run(r, Request("/api/a", None), matches, results) == [A]
  {
  }

  /** Three transparent routes that all match: every handler runs once, in
      the order the routes were added. */
  lemma AllTransparentRoutesRun(matches: Matcher, results: Oracle)
    requires matches("/api/(.*)", "/api/a") && matches("/api/a", "/api/a") && matches("(.*)/api/a", "/api/a")
    requires forall k, h :: results(k, h) == None
    ensures var r := Set(Set(Set([], "/api/(.*)", Spread(Transparent(true), Single(A))),
                                 "/api/a", Spread(Transparent(true), Single(B))),
                             "(.*)/api/a", Spread(Transparent(true), Single(C)));
            Run(r, Request("/api/a", None), matches, results) == [A, B, C]
  {
    var r := Set(Set(Set([], "/api/(.*)", Spread(Transparent(true), Single(A))),
                     "/api/a", Spread(Transparent(true), Single(B))),
                 "(.*)/api/a", Spread(Transparent(true), Single(C)));
    var r2 := [("/api/(.*)", Spread(Transparent(true), Single(A))),
               ("/api/a", Spread(Transparent(true), Single(B)))];
    assert Set(Set([], "/api/(.*)", Spread(Transparent(true), Single(A))),
               "/api/a", Spread(Transparent(true), Single(B))) == r2;
    assert !HasKey(r2, "(.*)/api/a");
    SetAbsent(r2, "(.*)/api/a", Spread(Transparent(true), Single(C)));
    var hs := Handlers(Compose(r, Request("/api/a", None), matches));
    ComposeIsPipeline(r, Request("/api/a", None), matches);
    var req := Request("/api/a", None);
    assert Matching(r, req, matches) == r by {
      assert Matching(r[2..], req, matches) == r[2..];
      assert Matching(r[1..], req, matches) == r[1..];
    }
    assert ThroughFirstOpaque(r) == r by {
      assert ThroughFirstOpaque(r[1..]) == r[1..];
    }
    assert Flatten(r) == [A, B, C] by {
      assert r[2..][1..] == r[3..] && r[1..][1..] == r[2..];
      assert Flatten(r[3..]) == [];
      assert Flatten(r[2..]) == [C];
      assert Flatten(r[1..]) == [B, C];
    }
    assert hs == [A, B, C];
    assert StopAt(hs, results, 3) == 3;
  }

  /** The same routes with the middle one not transparent: the third
      handler never runs although its route matches. */
  lemma OpaqueRouteStopsTheChain(matches: Matcher, results: Oracle)
    requires matches("/api/(.*)", "/api/a") && matches("/api/a", "/api/a") && matches("(.*)/api/a", "/api/a")
    requires forall k, h :: results(k, h) == None
    ensures var r := Set(Set(Set([], "/api/(.*)", Spread(Transparent(true), Single(A))),
                                 "/api/a", Spread(Transparent(false), Single(B))),
                             "(.*)/api/a", Spread(Transparent(true), Single(C)));
            Run(r, Request("/api/a", None), matches, results) == [A, B]
  {
    var r := Set(Set(Set([], "/api/(.*)", Spread(Transparent(true), Single(A))),
                     "/api/a", Spread(Transparent(false), Single(B))),
                 "(.*)/api/a", Spread(Transparent(true), Single(C)));
    var r2 := [("/api/(.*)", Spread(Transparent(true), Single(A))),
               ("/api/a", Spread(Transparent(false), Single(B)))];
    assert Set(Set([], "/api/(.*)", Spread(Transparent(true), Single(A))),
               "/api/a", Spread(Transparent(false), Single(B))) == r2;
    assert !HasKey(r2, "(.*)/api/a");
    SetAbsent(r2, "(.*)/api/a", Spread(Transparent(true), Single(C)));
    var hs := Handlers(Compose(r, Request("/api/a", None), matches));
    ComposeIsPipeline(r, Request("/api/a", None), matches);
    assert hs == [A, B];
    assert StopAt(hs, results, 2) == 2;
  }

  /** The registry is keyed by the route alone: adding `/api/a` for `GET`
      and then for `POST` leaves one entry, the `POST` one, so a `GET`
      request runs no handler at all, whatever the matcher says. */
  lemma SameRouteOtherMethodOverwrites(matches: Matcher, results: Oracle)
    ensures var r := Set(Set([], "/api/a", Spread(Methods(["GET"]), Single(A))),
                         "/api/a", Spread(Methods(["POST"]), Single(B)));
            && r == [("/api/a", MiddlewareConfig(Single(B), Some(["POST"]), None))]
            && Run(r, Request("/api/a", Some("GET")), matches, results) == []
  {
    var r := Set(Set([], "/api/a", Spread(Methods(["GET"]), Single(A))),
                 "/api/a", Spread(Methods(["POST"]), Single(B)));
    SetTwice([], "/api/a", Spread(Methods(["GET"]), Single(A)), Spread(Methods(["POST"]), Single(B)));
    assert "GET" !in ["POST"];
    NoMatchOnlySentinel(r, Request("/api/a", Some("GET")), matches);
    assert Handlers([Sentinel]) == [];
  }

  /** Whatever order the four method-specific additions of one route come
      in, only the last survives; the `GET` handler runs exactly when its
      addition came last. */
  lemma LastAdditionWins(order: seq<(seq<string>, HandlerId)>, matches: Matcher, results: Oracle)
    requires |order| > 0
    requires matches("/api/a", "/api/a")
    requires forall k, h :: results(k, h) == None
    ensures var r := AddAll([], "/api/a", order);
            && r == [("/api/a", Spread(Methods(order[|order| - 1].0), Single(order[|order| - 1].1)))]
            && Run(r, Request("/api/a", Some("GET")), matches, results)
               == if "GET" in order[|order| - 1].0 then [order[|order| - 1].1] else []
  {
    var last := order[|order| - 1];
    var r := AddAll([], "/api/a", order);
    AddAllSameRoute([], "/api/a", order);
    SetAbsent([], "/api/a", Spread(Methods(last.0), Single(last.1)));
    var req := Request("/api/a", Some("GET"));
    var hs := Handlers(Compose(r, req, matches));
    ComposeIsPipeline(r, req, matches);
    if "GET" in last.0 {
      assert hs == [last.1];
      assert StopAt(hs, results, 1) == 1;
    } else {
      assert hs == [];
    }
  }

  /** `add(route, h, { methods })` for each pair of `order`, in turn. */
  function AddAll(m: seq<Entry>, route: string, order: seq<(seq<string>, HandlerId)>): seq<Entry>
    decreases |order|
  {
    if order == [] then m
    else AddAll(Set(m, route, Spread(Methods(order[0].0), Single(order[0].1))), route, order[1..])
  }

  /** A run of additions to one route amounts to the last one alone. */
  lemma {:induction false} AddAllSameRoute(m: seq<Entry>, route: string, order: seq<(seq<string>, HandlerId)>)
    requires |order| > 0
    ensures AddAll(m, route, order)
         == Set(m, route, Spread(Methods(order[|order| - 1].0), Single(order[|order| - 1].1)))
    decreases |order|
  {
    if |order| > 1 {
      var v := Spread(Methods(order[0].0), Single(order[0].1));
      AddAllSameRoute(Set(m, route, v), route, order[1..]);
      var w := Spread(Methods(order[|order| - 1].0), Single(order[|order| - 1].1));
      SetTwice(m, route, v, w);
    }
  }

  /** A transparent array `[h1, h2, h3]` on `/api/(.*)` followed by `h4` on
      `/api/a/b/c`; `h2` resolves to `EXIT`. There is one exit code only:
      `h3`, a later member of the same array, and `h4`, on a later route,
      never run. */
  lemma ExitInsideArrayStopsEverything(matches: Matcher, results: Oracle)
    requires matches("/api/(.*)", "/api/a/b/c") && matches("/api/a/b/c", "/api/a/b/c")
    requires results(0, A) == None && results(1, B) == Some(Exit)
    ensures var r := Set(Set([], "/api/(.*)", Spread(Transparent(true), Group([A, B, C]))),
                         "/api/a/b/c", Spread(None, Single(D)));
            Run(r, Request("/api/a/b/c", None), matches, results) == [A, B]
  {
    var r := Set(Set([], "/api/(.*)", Spread(Transparent(true), Group([A, B, C]))),
                 "/api/a/b/c", Spread(None, Single(D)));
    assert r == [("/api/(.*)", Spread(Transparent(true), Group([A, B, C]))),
                 ("/api/a/b/c", Spread(None, Single(D)))];
    var hs := Handlers(Compose(r, Request("/api/a/b/c", None), matches));
    ComposeIsPipeline(r, Request("/api/a/b/c", None), matches);
    assert hs == [A, B, C, D];
    assert StopAt(hs, results, 1) == 2;
  }

  /** One handler on a transparent `/api/(.*)` and on `/api/a`: a request to
      `/api/a` invokes it twice. */
  lemma SameHandlerOnTwoRoutesRunsTwice(matches: Matcher, results: Oracle)
    requires matches("/api/(.*)", "/api/a") && matches("/api/a", "/api/a")
    requires forall k, h :: results(k, h) == None
    ensures var r := Set(Set([], "/api/(.*)", Spread(Transparent(true), Single(A))),
                         "/api/a", Spread(None, Single(A)));
            Run(r, Request("/api/a", None), matches, results) == [A, A]
  {
    var r := Set(Set([], "/api/(.*)", Spread(Transparent(true), Single(A))),
                 "/api/a", Spread(None, Single(A)));
    assert r == [("/api/(.*)", Spread(Transparent(true), Single(A))),
                 ("/api/a", Spread(None, Single(A)))];
    var hs := Handlers(Compose(r, Request("/api/a", None), matches));
    ComposeIsPipeline(r, Request("/api/a", None), matches);
    assert hs == [A, A];
    assert StopAt(hs, results, 2) == 2;
  }
}
