/** The shape of a registry entry (src/MiddlewareConfig.ts). */
module Config {
  import opened Wrappers

  /** Handlers are opaque: the model only needs to tell them apart. */
  type HandlerId = nat

  /** `middleware: Middleware | Middleware[]`. */
  datatype Payload = Single(handler: HandlerId) | Group(handlers: seq<HandlerId>)

  /** `{ middleware, methods?, transparent? }` as it is stored in the registry.
      Optional properties stay optional: `None` is an absent property. */
  datatype MiddlewareConfig = MiddlewareConfig(
    middleware: Payload,
    methods: Option<seq<string>>,
    transparent: Option<bool>)

  /** The `config` argument of `add`: `Omit<MiddlewareConfig, 'middleware'>`. */
  datatype Options = Options(methods: Option<seq<string>>, transparent: Option<bool>)

  /** `{ ...config, middleware }`: the stored value is built from the new
      arguments only; spreading an absent `config` adds no property. */
  function Spread(config: Option<Options>, middleware: Payload): (c: MiddlewareConfig)
    ensures c.middleware == middleware
    ensures config.None? ==> c.methods.None? && !IsTransparent(c)
    ensures config.Some? ==> c.methods == config.value.methods && c.transparent == config.value.transparent
  {
    match config
    case None => MiddlewareConfig(middleware, None, None)
    case Some(o) => MiddlewareConfig(middleware, o.methods, o.transparent)
  }

  /** The handlers an entry yields, in order: `yield* config.middleware` for
      an array, `yield config.middleware` otherwise. */
  function Members(p: Payload): seq<HandlerId>
  {
    match p
    case Single(h) => [h]
    case Group(hs) => hs
  }

  /** `config.transparent` is truthy; an absent flag counts as false. */
  predicate IsTransparent(c: MiddlewareConfig)
    ensures c.transparent.None? ==> !IsTransparent(c)
    ensures c.transparent == Some(false) ==> !IsTransparent(c)
  {
    c.transparent == Some(true)
  }

  /** `!config.methods || config.methods.includes(request.method)`: an absent
      list admits every method (also an absent one), a present list, even an
      empty one, admits exactly the methods it contains, compared verbatim. */
  predicate AllowsMethod(methods: Option<seq<string>>, verb: Option<string>)
    ensures methods.None? ==> AllowsMethod(methods, verb)
    ensures methods == Some([]) ==> !AllowsMethod(methods, verb)
    ensures verb.None? ==> (AllowsMethod(methods, verb) <==> methods.None?)
  {
    match methods
    case None => true
    case Some(ms) => verb.Some? && verb.value in ms
  }
}
