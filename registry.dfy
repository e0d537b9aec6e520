/** The class `MiddlewareRegistry` (src/MiddlewareRegistry.ts:9-84): a route
    table filled by `add` and consumed by `execute` for one request. */
module Registry {
  import opened Wrappers
  import opened Config
  import opened ExitCodes
  import opened OrderedMap
  import opened Chain
  import opened Execution

  class MiddlewareRegistry {
    /** `private registry: Map<string, MiddlewareConfig>`, in iteration order. */
    var registry: seq<Entry>
    /** `private readonly request`: only its path and method are read. */
    const request: Request

    /** A `Map` never holds a key twice. */
    ghost predicate Valid()
      reads this
    {
      DistinctKeys(registry)
    }

    /** A registry for one request starts out empty. */
    constructor (request: Request)
      ensures Valid()
      ensures this.request == request && registry == []
    {
      this.request := request;
      registry := [];
    }

    /** `add(route, middleware, config?)`: `registry.set(route, {...config,
        middleware})`. A new route is appended at the end; an existing route
        keeps its place and its whole stored config is replaced. */
    method Add(route: string, middleware: Payload, config: Option<Options>)
      requires Valid()
      modifies this
      ensures Valid()
      ensures registry == Set(old(registry), route, Spread(config, middleware))
      ensures !HasKey(old(registry), route) ==>
                registry == old(registry) + [(route, Spread(config, middleware))]
      ensures forall i :: 0 <= i < |old(registry)| && old(registry)[i].0 == route ==>
                registry == old(registry)[i := (route, Spread(config, middleware))]
      ensures |registry| == if HasKey(old(registry), route) then |old(registry)| else |old(registry)| + 1
      ensures forall k :: Get(registry, k) == if k == route then Some(Spread(config, middleware)) else Get(old(registry), k)
    {
      var v := Spread(config, middleware);
      SetKeepsDistinct(registry, route, v);
      if HasKey(registry, route) {
        var i :| 0 <= i < |registry| && registry[i].0 == route;
        SetPresent(registry, i, route, v);
        forall j | 0 <= j < |registry| && registry[j].0 == route
          ensures j == i
        {
        }
      } else {
        SetAbsent(registry, route, v);
      }
      forall k {
        GetSet(registry, route, v, k);
      }
      registry := Set(registry, route, v);
    }

    /** `execute()`: drives the chain that `composeMiddlewareChain` builds
        with a do-while loop, awaiting each handler, until one of them, or
        the closing sentinel, resolves to `EXIT`. Returns the handlers it
        invoked, in order, and the number of loop iterations. */
    method Execute(matches: Matcher, results: Oracle) returns (trace: seq<HandlerId>, steps: nat)
      ensures trace == Invoked(Handlers(Compose(registry, request, matches)), results)
      ensures trace <= Flatten(ThroughFirstOpaque(Matching(registry, request, matches)))
      ensures steps == |trace| || steps == |trace| + 1
      ensures steps == |trace| + 1 <==>
                |trace| == 0 || !Exits(Handlers(Compose(registry, request, matches)), results, |trace| - 1)
      ensures steps <= |Handlers(Compose(registry, request, matches))| + 1
    {
      var chain := Compose(registry, request, matches);
      ghost var hs := Handlers(chain);
      var code := Next;
      var pos := 0;
      trace := [];
      var running := true;
      while running
        invariant pos <= |chain|
        invariant running ==> pos <= |hs| && trace == hs[..pos]
        invariant running ==> StopAt(hs, results, pos) == StopAt(hs, results, 0)
        invariant running ==> forall j :: 0 <= j < pos ==> !Exits(hs, results, j)
        invariant !running ==> trace == Invoked(hs, results)
        invariant !running ==> (pos == |trace| + 1 <==> |trace| == 0 || !Exits(hs, results, |trace| - 1))
        invariant !running ==> pos == |trace| || pos == |trace| + 1
        decreases |chain| - pos
      {
        match chain[pos] {
          case Sentinel =>
            code := Exit;
          case Call(h) =>
            code := Normalize(results(pos, h));
            trace := trace + [h];
        }
        pos := pos + 1;
        running := code != Exit;
      }
      steps := pos;
      ComposeIsPipeline(registry, request, matches);
    }
  }
}
