/** What the do-while loop of `execute` (src/MiddlewareRegistry.ts:42-50)
    invokes, stated as a function of the chain's handlers and of what each
    handler resolves to. */
module Execution {
  import opened Wrappers
  import opened Config
  import opened ExitCodes

  /** The value the awaited handler at chain position `k` resolves to
      (`None` for `undefined` or another falsy value). Handler side effects
      are outside the model; taking the position as well as the handler lets
      one handler answer differently on different calls. */
  type Oracle = (nat, HandlerId) -> Option<ExitCode>

  /** The handler at position `k` exists and its result stops the loop. */
  predicate Exits(hs: seq<HandlerId>, results: Oracle, k: nat)
  {
    k < |hs| && Normalize(results(k, hs[k])) == Exit
  }

  /** How many handlers from position `k` on are invoked: up to and
      including the first one that resolves to `EXIT`, or all of them. */
  function StopAt(hs: seq<HandlerId>, results: Oracle, k: nat): (n: nat)
    requires k <= |hs|
    ensures k <= n <= |hs|
    ensures k < |hs| ==> k < n
    ensures forall j :: k <= j < n - 1 ==> !Exits(hs, results, j)
    ensures n < |hs| ==> Exits(hs, results, n - 1)
    decreases |hs| - k
  {
    if k == |hs| then k
    else if Exits(hs, results, k) then k + 1
    else StopAt(hs, results, k + 1)
  }

  /** The handlers `execute` invokes, in order: a prefix of the chain's
      handlers that is cut short only by a handler resolving to `EXIT`,
      that handler included. */
  function Invoked(hs: seq<HandlerId>, results: Oracle): (trace: seq<HandlerId>)
    ensures trace <= hs
    ensures |hs| > 0 ==> |trace| > 0
    ensures forall j :: 0 <= j < |trace| - 1 ==> !Exits(hs, results, j)
    ensures |trace| < |hs| ==> Exits(hs, results, |trace| - 1)
    ensures (forall j :: 0 <= j < |hs| ==> !Exits(hs, results, j)) ==> trace == hs
  {
    hs[..StopAt(hs, results, 0)]
  }

  /** From position `k` on, handlers that resolve alike up to where the
      first run stops make the second run stop at the same place. */
  lemma {:induction false} SameResultsSameStop(hs: seq<HandlerId>, r1: Oracle, r2: Oracle, k: nat)
    requires k <= |hs|
    requires forall j :: k <= j < StopAt(hs, r1, k) ==> Normalize(r1(j, hs[j])) == Normalize(r2(j, hs[j]))
    ensures StopAt(hs, r1, k) == StopAt(hs, r2, k)
    decreases |hs| - k
  {
    if k < |hs| {
      assert Normalize(r1(k, hs[k])) == Normalize(r2(k, hs[k]));
      if !Exits(hs, r1, k) {
        SameResultsSameStop(hs, r1, r2, k + 1);
      }
    }
  }

  /** The trace depends on nothing but what the handlers it invokes resolve
      to: two runs whose results agree on the first run's trace invoke the
      same handlers. */
  lemma SameResultsSameTrace(hs: seq<HandlerId>, r1: Oracle, r2: Oracle)
    requires forall j :: 0 <= j < |Invoked(hs, r1)| ==> Normalize(r1(j, hs[j])) == Normalize(r2(j, hs[j]))
    ensures Invoked(hs, r1) == Invoked(hs, r2)
  {
    SameResultsSameStop(hs, r1, r2, 0);
  }
}
