/** `composeMiddlewareChain` (src/MiddlewareRegistry.ts:57-69): the route
    table walked in insertion order, materialised as the list of handlers the
    generator yields followed by the value it returns, the `EXIT` sentinel. */
module Chain {
  import opened Wrappers
  import opened Config

  /** The two request fields the registry reads: the path it matches routes
      against and the HTTP method (absent in requests that carry none). */
  datatype Request = Request(path: string, verb: Option<string>)

  /** `pathToRegexp(pattern).test(path)`, an external library, as a parameter. */
  type Matcher = (string, string) -> bool

  /** One registry entry: the route string and the stored config. */
  type Entry = (string, MiddlewareConfig)

  /** A value the generator produces: a yielded handler, or the closing
      `async () => EXIT` it returns. */
  datatype Link = Call(handler: HandlerId) | Sentinel

  /** Every link but the last is a handler, and the last is the sentinel. */
  predicate Terminated(chain: seq<Link>)
  {
    && |chain| > 0
    && chain[|chain| - 1] == Sentinel
    && forall i :: 0 <= i < |chain| - 1 ==> chain[i].Call?
  }

  /** The handlers of a terminated chain, sentinel dropped. */
  function Handlers(chain: seq<Link>): (hs: seq<HandlerId>)
    requires Terminated(chain)
    ensures |hs| == |chain| - 1
    ensures forall i :: 0 <= i < |hs| ==> chain[i] == Call(hs[i])
  {
    seq(|chain| - 1, i requires 0 <= i < |chain| - 1 => chain[i].handler)
  }

  /** Handlers as yielded links. */
  function Calls(hs: seq<HandlerId>): (links: seq<Link>)
    ensures |links| == |hs|
    ensures forall i :: 0 <= i < |hs| ==> links[i] == Call(hs[i])
  {
    seq(|hs|, i requires 0 <= i < |hs| => Call(hs[i]))
  }

  /** The condition of lines 59-61: the route matches the request path and
      the entry either has no `methods` or lists the request's method. */
  predicate Selected(e: Entry, req: Request, matches: Matcher)
    ensures Selected(e, req, matches) ==> matches(e.0, req.path)
    ensures e.1.methods == Some([]) ==> !Selected(e, req, matches)
  {
    matches(e.0, req.path) && AllowsMethod(e.1.methods, req.verb)
  }

  /** The generator, run to completion. A selected entry yields its members;
      unless it is transparent the generator then returns the sentinel at
      once (line 64); an exhausted table returns it too (line 68). */
  function Compose(entries: seq<Entry>, req: Request, matches: Matcher): (chain: seq<Link>)
    ensures Terminated(chain)
    decreases |entries|
  {
    if entries == [] then [Sentinel]
    else
      var e := entries[0];
      var rest := Compose(entries[1..], req, matches);
      if !Selected(e, req, matches) then rest
      else if IsTransparent(e.1) then Calls(Members(e.1.middleware)) + rest
      else Calls(Members(e.1.middleware)) + [Sentinel]
  }

  /** Appending yielded handlers in front of a terminated chain adds exactly
      those handlers in front of its handlers. */
  lemma HandlersAfterCalls(hs: seq<HandlerId>, rest: seq<Link>)
    requires Terminated(rest)
    ensures Terminated(Calls(hs) + rest)
    ensures Handlers(Calls(hs) + rest) == hs + Handlers(rest)
  {
  }

  // ---------------------------------------------------------------------
  // A reference definition in three independent stages: keep the selected
  // entries, cut after the first one that is not transparent, flatten.

  /** The entries the request selects, in registry order. */
  function Matching(entries: seq<Entry>, req: Request, matches: Matcher): (es: seq<Entry>)
    ensures |es| <= |entries|
    ensures forall e :: e in es <==> e in entries && Selected(e, req, matches)
    decreases |entries|
  {
    if entries == [] then []
    else
      var rest := Matching(entries[1..], req, matches);
      assert forall e :: e in entries <==> e == entries[0] || e in entries[1..] by {
        assert entries == [entries[0]] + entries[1..];
      }
      if Selected(entries[0], req, matches) then [entries[0]] + rest else rest
  }

  /** Filtering keeps registry order: the kept entries of `a + b` are those
      of `a` followed by those of `b`. */
  lemma {:induction false} MatchingAppend(a: seq<Entry>, b: seq<Entry>, req: Request, matches: Matcher)
    ensures Matching(a + b, req, matches) == Matching(a, req, matches) + Matching(b, req, matches)
    decreases |a|
  {
    if a == [] {
      assert a + b == b;
    } else {
      assert (a + b)[0] == a[0] && (a + b)[1..] == a[1..] + b;
      MatchingAppend(a[1..], b, req, matches);
    }
  }

  /** The shortest prefix that ends with an entry that is not transparent,
      or the whole list when every entry is transparent. */
  function ThroughFirstOpaque(es: seq<Entry>): (cut: seq<Entry>)
    ensures cut <= es
    ensures forall i :: 0 <= i < |cut| - 1 ==> IsTransparent(cut[i].1)
    ensures |cut| < |es| ==> cut != [] && !IsTransparent(cut[|cut| - 1].1)
    ensures (forall i :: 0 <= i < |es| ==> IsTransparent(es[i].1)) ==> cut == es
    decreases |es|
  {
    if es == [] then []
    else if IsTransparent(es[0].1) then
      var rest := ThroughFirstOpaque(es[1..]);
      assert forall i :: 0 <= i < |es| - 1 ==> es[1..][i] == es[i + 1];
      [es[0]] + rest
    else [es[0]]
  }

  /** The handlers of a list of entries, each entry's members in order. */
  function Flatten(es: seq<Entry>): seq<HandlerId>
    decreases |es|
  {
    if es == [] then [] else Members(es[0].1.middleware) + Flatten(es[1..])
  }

  /** Flattening distributes over concatenation. */
  lemma {:induction false} FlattenAppend(a: seq<Entry>, b: seq<Entry>)
    ensures Flatten(a + b) == Flatten(a) + Flatten(b)
    decreases |a|
  {
    if a == [] {
      assert a + b == b;
    } else {
      assert (a + b)[0] == a[0] && (a + b)[1..] == a[1..] + b;
      FlattenAppend(a[1..], b);
    }
  }

  /** The one-pass generator yields exactly the handlers of the three-stage
      reference: filter, cut after the first non-transparent entry, flatten. */
  lemma {:induction false} ComposeIsPipeline(entries: seq<Entry>, req: Request, matches: Matcher)
    ensures Handlers(Compose(entries, req, matches))
         == Flatten(ThroughFirstOpaque(Matching(entries, req, matches)))
    decreases |entries|
  {
    if entries != [] {
      var e := entries[0];
      var tail := entries[1..];
      ComposeIsPipeline(tail, req, matches);
      if Selected(e, req, matches) {
        var hs := Members(e.1.middleware);
        assert Matching(entries, req, matches) == [e] + Matching(tail, req, matches);
        if IsTransparent(e.1) {
          HandlersAfterCalls(hs, Compose(tail, req, matches));
          var m := [e] + Matching(tail, req, matches);
          assert m[1..] == Matching(tail, req, matches);
          assert ThroughFirstOpaque(m) == [e] + ThroughFirstOpaque(Matching(tail, req, matches));
          assert ([e] + ThroughFirstOpaque(Matching(tail, req, matches)))[1..]
              == ThroughFirstOpaque(Matching(tail, req, matches));
        } else {
          HandlersAfterCalls(hs, [Sentinel]);
          assert Handlers([Sentinel]) == [];
          assert Flatten([e]) == hs + Flatten([]);
        }
      }
    }
  }

  /** The registry contains a selected entry that is not transparent. */
  predicate StopsIn(entries: seq<Entry>, req: Request, matches: Matcher)
  {
    exists i :: 0 <= i < |entries| && Selected(entries[i], req, matches) && !IsTransparent(entries[i].1)
  }

  /** Insertion order: the chain of `a + b` is the chain of `a` when `a`
      already stops the walk, and otherwise the handlers of `a` followed by
      the chain of `b`. */
  lemma {:induction false} ComposeAppend(a: seq<Entry>, b: seq<Entry>, req: Request, matches: Matcher)
    ensures Compose(a + b, req, matches)
         == if StopsIn(a, req, matches) then Compose(a, req, matches)
            else Calls(Handlers(Compose(a, req, matches))) + Compose(b, req, matches)
    decreases |a|
  {
    if a == [] {
      assert a + b == b;
      assert Handlers([Sentinel]) == [];
    } else {
      var e := a[0];
      assert (a + b)[0] == e && (a + b)[1..] == a[1..] + b;
      ComposeAppend(a[1..], b, req, matches);
      assert StopsIn(a, req, matches) <==> (Selected(e, req, matches) && !IsTransparent(e.1)) || StopsIn(a[1..], req, matches) by {
        if StopsIn(a, req, matches) {
          var i :| 0 <= i < |a| && Selected(a[i], req, matches) && !IsTransparent(a[i].1);
          if i > 0 { assert a[1..][i - 1] == a[i]; }
        }
        if StopsIn(a[1..], req, matches) {
          var i :| 0 <= i < |a[1..]| && Selected(a[1..][i], req, matches) && !IsTransparent(a[1..][i].1);
          assert a[i + 1] == a[1..][i];
        }
      }
      if Selected(e, req, matches) && IsTransparent(e.1) && !StopsIn(a[1..], req, matches) {
        var hs := Members(e.1.middleware);
        var ta := Compose(a[1..], req, matches);
        HandlersAfterCalls(hs, ta);
        assert Calls(hs + Handlers(ta)) == Calls(hs) + Calls(Handlers(ta));
      }
    }
  }

  /** Nothing registered after the first selected non-transparent entry
      affects the chain. */
  lemma LaterEntriesIgnored(entries: seq<Entry>, j: nat, req: Request, matches: Matcher)
    requires j < |entries|
    requires Selected(entries[j], req, matches) && !IsTransparent(entries[j].1)
    ensures Compose(entries, req, matches) == Compose(entries[..j + 1], req, matches)
  {
    assert entries == entries[..j + 1] + entries[j + 1..];
    assert entries[..j + 1][j] == entries[j];
    ComposeAppend(entries[..j + 1], entries[j + 1..], req, matches);
  }

  /** A request that selects no entry gets a chain holding only the sentinel. */
  lemma {:induction false} NoMatchOnlySentinel(entries: seq<Entry>, req: Request, matches: Matcher)
    requires forall i :: 0 <= i < |entries| ==> !Selected(entries[i], req, matches)
    ensures Compose(entries, req, matches) == [Sentinel]
    decreases |entries|
  {
    if entries != [] {
      assert forall i :: 0 <= i < |entries| - 1 ==> entries[1..][i] == entries[i + 1];
      NoMatchOnlySentinel(entries[1..], req, matches);
    }
  }

  /** When every selected entry is transparent, all of their handlers are in
      the chain, in registry order and each array in its own order. */
  lemma {:induction false} AllTransparentRunAll(entries: seq<Entry>, req: Request, matches: Matcher)
    requires forall i :: 0 <= i < |entries| && Selected(entries[i], req, matches) ==> IsTransparent(entries[i].1)
    ensures Handlers(Compose(entries, req, matches)) == Flatten(Matching(entries, req, matches))
  {
    var m := Matching(entries, req, matches);
    forall i | 0 <= i < |m| ensures IsTransparent(m[i].1) {
      assert m[i] in m;
    }
    ComposeIsPipeline(entries, req, matches);
  }

  /** A `methods` list that is present but empty admits no request: a table
      of such entries yields no handler, whatever the routes match. */
  lemma {:induction false} EmptyMethodsRunNothing(entries: seq<Entry>, req: Request, matches: Matcher)
    requires forall i :: 0 <= i < |entries| ==> entries[i].1.methods == Some([])
    ensures Compose(entries, req, matches) == [Sentinel]
  {
    NoMatchOnlySentinel(entries, req, matches);
  }

  /** An entry whose `methods` list is present but empty contributes nothing
      wherever it stands: the chain is the one without it. */
  lemma EmptyMethodsEntryIgnored(a: seq<Entry>, e: Entry, b: seq<Entry>, req: Request, matches: Matcher)
    requires e.1.methods == Some([])
    ensures Compose(a + [e] + b, req, matches) == Compose(a + b, req, matches)
  {
    assert a + [e] + b == a + ([e] + b);
    ComposeAppend(a, [e] + b, req, matches);
    ComposeAppend(a, b, req, matches);
    assert ([e] + b)[1..] == b;
  }
}
