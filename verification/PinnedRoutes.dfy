/**
 From validation to the user: what a validated route, quoted, committed against a public route and
 pinned, delivers when it runs.
 */
module PinnedRoutes {
  import opened Routes
  import opened RouteLoops
  import opened Commitment
  import opened Division
  import opened RouteValidation
  import opened ValidatedRoutes
  import opened Shortfall
  import opened PinnedReplay
  import opened Guarantee
  import opened Replay

  /**
   A validated route in order, that does not return to its first token, as it is pinned: it ran when it
   was quoted, it has one exclusive leg that reaches its output, at `e`, and the leg's pool and the
   pools after it serve one swap each.
   */
  ghost predicate PinnableRoute<S>(swaps: seq<Swap>, totalIn: nat, market: Market<S>, e: nat) {
    && Validated(swaps) && InOrder(swaps) && swaps[0].tokenIn != LastToken(swaps)
    && e < |swaps| && swaps[e].exclusive && UsedOnce(swaps, e)
    && RunRoute(swaps, totalIn, market).Ok?
    && var route := Quoted(swaps, totalIn, market);
       ZeroInZeroOut(route) && ExclusiveRouteShape(route, LastToken(swaps)) == Valid
  }

  lemma PinnableIsQuoted<S>(swaps: seq<Swap>, totalIn: nat, market: Market<S>, e: nat)
    requires PinnableRoute(swaps, totalIn, market, e)
    ensures QuotedRoute(swaps, totalIn, market, e) && SplitsFit(swaps)
  {
    hide RunRoute, Validated, InOrder, UsedOnce, Topological, SplitsFit, ExclusiveRouteShape, ZeroInZeroOut;
    ValidatedRouteReplays(swaps);
  }

  /** Whatever is committed of it, a validated route pinned to the commitment delivers it, less the slack. */
  lemma ValidatedRouteDelivers<S>(swaps: seq<Swap>, totalIn: nat, market: Market<S>, e: nat, committed: nat, r: nat)
    requires PinnableRoute(swaps, totalIn, market, e)
    requires committed <= RunRoute(swaps, totalIn, market).value.amountOut
    requires forall i | 0 <= i < |swaps| && Affected(swaps, e, i) :: DiminishingReturns(market, swaps[i], r)
    ensures QuotedRoute(swaps, totalIn, market, e)
    ensures var x := PinnedRun(swaps, totalIn, market, e, committed);
            && ((forall i | e < i < |swaps| :: ServesEvery(market, swaps[i])) ==> x.Ok?)
            && (x.Ok? ==>
                  x.value.amountOut as real >= committed as real
                    - RouteSlack(Quoted(swaps, totalIn, market), LastToken(swaps), e, Roundings(swaps), r))
  {
    hide PinnableRoute, QuotedRoute, RunRoute, PinnedRun, DiminishingReturns, ServesEvery, Affected, RouteSlack,
         Roundings, SplitsFit;
    PinnableIsQuoted(swaps, totalIn, market, e);
    UserGuarantee(swaps, totalIn, market, e, committed, r);
  }

  /**
   Committed against a public route, the user gets at least what the public route pays, and nets at
   least its net and their share of the improvement, each less the slack.
   */
  lemma MatchedRouteDelivers<S>(
    swaps: seq<Swap>, totalIn: nat, market: Market<S>, e: nat, public: RouteOutput, exclusive: RouteOutput,
    share: nat, r: nat)
    requires PinnableRoute(swaps, totalIn, market, e)
    requires exclusive.amountOut == RunRoute(swaps, totalIn, market).value.amountOut
    requires exclusive.netGas <= exclusive.amountOut && share <= BPS
    requires MatchedCommitment(public, exclusive, share).Some?
    requires forall i | 0 <= i < |swaps| && Affected(swaps, e, i) :: DiminishingReturns(market, swaps[i], r)
    ensures QuotedRoute(swaps, totalIn, market, e)
    ensures var x := PinnedRun(swaps, totalIn, market, e, MatchedCommitment(public, exclusive, share).value);
            var slack := RouteSlack(Quoted(swaps, totalIn, market), LastToken(swaps), e, Roundings(swaps), r);
            var gas := exclusive.amountOut - exclusive.netGas;
            var improvement := exclusive.netGas - public.netGas;
            x.Ok? ==>
              && x.value.amountOut as real >= public.amountOut as real - slack
              && x.value.amountOut as real - gas as real
                 >= (public.netGas + UserImprovement(improvement, share)) as real - slack
  {
    hide PinnableRoute, QuotedRoute, RunRoute, PinnedRun, DiminishingReturns, Affected, RouteSlack, Roundings,
         UserImprovement, KeepsShare;
    MatchedCanBePinned(public, exclusive, share);
    ValidatedRouteDelivers(swaps, totalIn, market, e, MatchedCommitment(public, exclusive, share).value, r);
  }
}
