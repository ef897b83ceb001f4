/**
 The promise behind pinning: a route run with its exclusive leg paying only the committed leg amount
 delivers the committed route output, less what rounding in the splits and pools after the leg can
 cost, when those pools give no less per unit on a smaller input.
 */
module Guarantee {
  import opened Wrappers
  import opened Arithmetic
  import opened Routes
  import opened RouteValue
  import opened RouteLoops
  import opened RoutePrices
  import opened RouteFlow
  import opened Shortfall
  import opened Commitment
  import opened Replay
  import opened ReplayFlow
  import opened Division
  import opened PinnedReplay

  // ---------------------------------------------------------------- the route and its pinned run

  /** A route quoted on `market`, with its only exclusive leg at `e`, as the source lets it be pinned. */
  ghost predicate QuotedRoute<S>(swaps: seq<Swap>, totalIn: nat, market: Market<S>, e: nat) {
    && e < |swaps| && Topological(swaps) && RemainderLast(swaps) && UsedOnce(swaps, e)
    && swaps[e].exclusive
    && RunRoute(swaps, totalIn, market).Ok?
    && var route := Quoted(swaps, totalIn, market);
       ZeroInZeroOut(route) && ExclusiveRouteShape(route, LastToken(swaps)) == Valid
  }

  /** The route with its quoted amounts. */
  ghost function Quoted<S>(swaps: seq<Swap>, totalIn: nat, market: Market<S>): (route: seq<Swap>)
    requires |swaps| > 0 && RunRoute(swaps, totalIn, market).Ok?
    ensures |route| == |swaps|
  {
    WriteBack(swaps, RunRoute(swaps, totalIn, market).value.swaps)
  }

  /** The leg amount that pinning commits to. */
  ghost function LegCommitment(route: seq<Swap>, output: Token, surplus: nat, e: nat): nat
    requires e < |route| && ZeroInZeroOut(route)
  {
    var pinned := PinnedSwap(route, output, surplus, e);
    if pinned.committed.Some? then pinned.committed.value else pinned.amountOut
  }

  /** The leg amount that pinning commits to when the route is to pay `committed`. */
  ghost function PinnedAt<S>(swaps: seq<Swap>, totalIn: nat, market: Market<S>, e: nat, committed: nat): nat
    requires QuotedRoute(swaps, totalIn, market, e)
    requires committed <= RunRoute(swaps, totalIn, market).value.amountOut
  {
    LegCommitment(Quoted(swaps, totalIn, market), LastToken(swaps),
                  RunRoute(swaps, totalIn, market).value.amountOut - committed, e)
  }

  /** The route run with its leg pinned so that all it pays above `committed` is captured. */
  ghost function PinnedRun<S>(swaps: seq<Swap>, totalIn: nat, market: Market<S>, e: nat, committed: nat)
    : (r: Result<SimulatedRoute, ReplayError>)
    requires QuotedRoute(swaps, totalIn, market, e)
    requires committed <= RunRoute(swaps, totalIn, market).value.amountOut
    ensures r.Ok? ==> |r.value.swaps| == |swaps|
  {
    RunPinned(swaps, totalIn, market, e, PinnedAt(swaps, totalIn, market, e, committed))
  }

  lemma ValidLeg(route: seq<Swap>, output: Token, e: nat)
    requires ZeroInZeroOut(route) && ExclusiveRouteShape(route, output) == Valid
    requires e < |route| && route[e].exclusive
    ensures var f := LegOutput(route, route[e], output); f.Some? && f.value.num > 0 && f.value.den > 0
    ensures route[e].amountOut > 0
  {
    hide LegOutput;
    var legs := ExclusiveLegs(route);
    assert legs[0] in legs && e in legs;
    LegDenominatorPositive(route, route[e], output);
    LegValueIffReaches(route, route[e], output);
  }

  /** What the leg holds back is worth no more than the surplus. */
  lemma HeldBackWithinSurplus(route: seq<Swap>, output: Token, surplus: nat, e: nat, u: Token -> real)
    requires ZeroInZeroOut(route) && ExclusiveRouteShape(route, output) == Valid
    requires e < |route| && route[e].exclusive && AveragePrices(route, output, u)
    ensures LegCommitment(route, output, surplus, e) <= route[e].amountOut
    ensures (route[e].amountOut - LegCommitment(route, output, surplus, e)) as real * u(route[e].tokenOut)
              <= surplus as real
  {
    hide LegOutput, Equals, AveragePrices, LegCut, LegCommitment, LegCapture, ExclusiveRouteShape, ZeroInZeroOut;
    ValidLeg(route, output, e);
    var leg, f := route[e], LegOutput(route, route[e], output).value;
    var captured := LegCapture(route, output, surplus, e);
    LegCommits(route, output, surplus, e);
    var v := leg.amountOut as real * u(leg.tokenOut);
    PricesAtLeg(route, output, e, u);
    LegFractionIsValue(route, leg, output, u, v);
    CutWorth(leg.amountOut - LegCommitment(route, output, surplus, e), captured, leg.amountOut, f, u(leg.tokenOut), v);
  }

  lemma PricesAtLeg(route: seq<Swap>, output: Token, e: nat, u: Token -> real)
    requires e < |route| && AveragePrices(route, output, u)
    ensures u(output) == 1.0 && AveragePricesFrom(route, route[e].tokenOut, output, u)
  {}

  /** What the leg holds back and how it bounds what is captured. */
  lemma LegCommits(route: seq<Swap>, output: Token, surplus: nat, e: nat)
    requires ZeroInZeroOut(route) && e < |route| && route[e].exclusive
    requires var f := LegOutput(route, route[e], output); f.Some? && f.value.num > 0 && f.value.den > 0
    ensures var f := LegOutput(route, route[e], output).value;
            var commitment := LegCommitment(route, output, surplus, e);
            && commitment <= route[e].amountOut && LegCapture(route, output, surplus, e) <= surplus
            && (route[e].amountOut - commitment) * f.num
               <= LegCapture(route, output, surplus, e) * route[e].amountOut * f.den
  {
    hide LegOutput, LegCut, ZeroInZeroOut;
    var f := LegOutput(route, route[e], output).value;
    LegCutBounds(LegCapture(route, output, surplus, e), route[e].amountOut, f);
  }

  lemma CutWorth(cut: nat, captured: nat, amountOut: nat, f: Fraction, price: real, v: real)
    requires Equals(f, v) && v == amountOut as real * price && amountOut > 0
    requires cut * f.num <= captured * amountOut * f.den
    ensures cut as real * price <= captured as real
  {
    var c, k, b, n, d := cut as real, captured as real, amountOut as real, f.num as real, f.den as real;
    assert (cut * f.num) as real == c * n;
    assert (captured * amountOut * f.den) as real == k * b * d;
    assert c * n == c * price * (b * d);
    assert k * b * d == k * (b * d);
    assert b * d > 0.0;
    CancelReal(c * price, k, b * d);
  }

  // ---------------------------------------------------------------- the two runs compared

  /** A token taken before the leg pays is taken in full as quoted. */
  lemma TotalKept<S>(swaps: seq<Swap>, totalIn: nat, market: Market<S>, e: nat, legAmount: nat, i: nat)
    requires QuotedRoute(swaps, totalIn, market, e) && i <= e && RunPinned(swaps, totalIn, market, e, legAmount).Ok?
    ensures var x := PinnedFlow(swaps, totalIn, market, e, legAmount);
            TotalIn(x, swaps[i].tokenIn) == TotalIn(Quoted(swaps, totalIn, market), swaps[i].tokenIn)
  {
    hide RunRoute, Pinned, ExclusiveRouteShape, TotalIn, TotalOut;
    var m' := Pinned(market, swaps[e].component, legAmount);
    var q, x := Quoted(swaps, totalIn, market), WriteBack(swaps, RunRoute(swaps, totalIn, m').value.swaps);
    var t := swaps[i].tokenIn;
    RunIsDrained(swaps, totalIn, market);
    RunIsDrained(swaps, totalIn, m');
    if t != InputToken(swaps) {
      assert q[i].tokenIn == t && x[i].tokenIn == t;
      TopologicalEnds(q);
      PaidBefore(q, i);
      PaidBefore(x, i);
      UpToLeg(swaps, totalIn, market, e, legAmount);
      assert q[..i] == x[..i];
    }
  }

  lemma LaterSwapPaysAlong<S>(swaps: seq<Swap>, totalIn: nat, market: Market<S>, e: nat, legAmount: nat, i: nat, r: nat)
    requires e < i < |swaps| && UsedOnce(swaps, e) && DiminishingReturns(market, swaps[i], r)
    requires RunRoute(swaps, totalIn, market).Ok? && RunPinned(swaps, totalIn, market, e, legAmount).Ok?
    ensures var q := RunRoute(swaps, totalIn, market).value;
            var x := RunPinned(swaps, totalIn, market, e, legAmount).value;
            PaysAlong(WriteBack(swaps, q.swaps)[i], WriteBack(swaps, x.swaps)[i], r)
  {
    hide RunRoute, RunPinned, PaidFor, UsedOnce;
    LaterSwapPays(swaps, totalIn, market, e, legAmount, i);
    var q := RunRoute(swaps, totalIn, market).value;
    var x := RunPinned(swaps, totalIn, market, e, legAmount).value;
    if x.swaps[i].amountIn <= q.swaps[i].amountIn {
      assert GivesLessPerUnit(market, swaps[i], x.swaps[i].amountIn, q.swaps[i].amountIn, r);
    } else {
      assert GivesLessPerUnit(market, swaps[i], q.swaps[i].amountIn, x.swaps[i].amountIn, r);
    }
  }

  /** A swap that is not affected pays as quoted. */
  lemma UnaffectedPays<S>(swaps: seq<Swap>, totalIn: nat, market: Market<S>, e: nat, legAmount: nat, i: nat)
    requires QuotedRoute(swaps, totalIn, market, e) && RunPinned(swaps, totalIn, market, e, legAmount).Ok?
    requires i < |swaps| && i != e && !Affected(swaps, e, i)
    ensures var q, x := RunRoute(swaps, totalIn, market).value, RunPinned(swaps, totalIn, market, e, legAmount).value;
            x.swaps[i].amountOut == q.swaps[i].amountOut
  {
    hide RunRoute, Pinned, ExclusiveRouteShape, TotalIn, Topological, RemainderLast, UsedOnce, ZeroInZeroOut, Share;
    if i < e {
      UpToLeg(swaps, totalIn, market, e, legAmount);
    } else {
      var j :| 0 <= j < e + 1 && swaps[j].tokenIn == swaps[i].tokenIn;
      TotalKept(swaps, totalIn, market, e, legAmount, j);
      RunDivides(swaps, totalIn, market, i);
      RunDivides(swaps, totalIn, Pinned(market, swaps[e].component, legAmount), i);
      LaterSwapPays(swaps, totalIn, market, e, legAmount, i);
    }
  }

  /** The two runs are the two flows of a cut route. */
  lemma RunsAreCutFlows<S>(
    swaps: seq<Swap>, totalIn: nat, market: Market<S>, e: nat, legAmount: nat, m: seq<nat>, r: nat)
    requires QuotedRoute(swaps, totalIn, market, e) && RunPinned(swaps, totalIn, market, e, legAmount).Ok?
    requires |m| == |swaps|
    requires forall i | 0 <= i < |swaps| && Affected(swaps, e, i) :: DiminishingReturns(market, swaps[i], r)
    requires var q, x := Quoted(swaps, totalIn, market), PinnedFlow(swaps, totalIn, market, e, legAmount);
             forall i | 0 <= i < |swaps| && Affected(swaps, e, i) :: TakesNearPart(q, x, i, m[i])
    ensures var q, x := Quoted(swaps, totalIn, market), PinnedFlow(swaps, totalIn, market, e, legAmount);
            CutFlows(q, x, InputToken(swaps), LastToken(swaps), e, m, r)
  {
    hide RunRoute, Pinned, ExclusiveRouteShape, DiminishingReturns, TakesNearPart, PaysAlong, UsedOnce, TotalIn,
         TotalOut, TakenIn;
    var m' := Pinned(market, swaps[e].component, legAmount);
    var q, x := Quoted(swaps, totalIn, market), WriteBack(swaps, RunRoute(swaps, totalIn, m').value.swaps);
    RunIsDrained(swaps, totalIn, market);
    RunIsDrained(swaps, totalIn, m');
    TopologicalEnds(q);
    hide Topological, RemainderLast, Drained, Ends;
    UpToLeg(swaps, totalIn, market, e, legAmount);
    forall i | 0 <= i < |q| && i != e
      ensures KeepsUp(q, x, e, m, r, i)
    {
      SameAffected(swaps, q, e, i);
      if Affected(swaps, e, i) {
        LaterSwapPaysAlong(swaps, totalIn, market, e, legAmount, i, r);
      } else {
        UnaffectedPays(swaps, totalIn, market, e, legAmount, i);
      }
    }
  }

  lemma SameAffected(swaps: seq<Swap>, route: seq<Swap>, e: nat, i: nat)
    requires SameShape(swaps, route) && e < |swaps| && i < |swaps|
    ensures Affected(swaps, e, i) <==> Affected(route, e, i)
  {
    assert TakenIn(swaps, 0, e + 1, swaps[i].tokenIn) <==> TakenIn(route, 0, e + 1, swaps[i].tokenIn);
  }

  /** Whatever parts the swaps take, the pinned run is short by at most the surplus and the slack of those parts. */
  lemma PinnedLegBound<S>(
    swaps: seq<Swap>, totalIn: nat, market: Market<S>, e: nat, surplus: nat, legAmount: nat, m: seq<nat>, r: nat)
    requires QuotedRoute(swaps, totalIn, market, e)
    requires legAmount == LegCommitment(Quoted(swaps, totalIn, market), LastToken(swaps), surplus, e)
    requires RunPinned(swaps, totalIn, market, e, legAmount).Ok? && |m| == |swaps|
    requires forall i | 0 <= i < |swaps| && Affected(swaps, e, i) :: DiminishingReturns(market, swaps[i], r)
    requires var q, x := Quoted(swaps, totalIn, market), PinnedFlow(swaps, totalIn, market, e, legAmount);
             forall i | 0 <= i < |swaps| && Affected(swaps, e, i) :: TakesNearPart(q, x, i, m[i])
    ensures RunPinned(swaps, totalIn, market, e, legAmount).value.amountOut as real
         >= RunRoute(swaps, totalIn, market).value.amountOut as real - surplus as real
          - RouteSlack(Quoted(swaps, totalIn, market), LastToken(swaps), e, m, r)
  {
    hide RunRoute, Pinned, LegCommitment, CutFlows, WalkPrices, PricedAtAverage, ExclusiveRouteShape,
         DiminishingReturns, ZeroInZeroOut, UsedOnce, RemainderLast, TakesNearPart, Affected, Slack;
    var route, output := Quoted(swaps, totalIn, market), LastToken(swaps);
    var pinned := Pinned(market, swaps[e].component, legAmount);
    var x := WriteBack(swaps, RunRoute(swaps, totalIn, pinned).value.swaps);
    var u := WalkPrices(route, output);
    TopologicalIsLoopFree(route, output);
    WalkPricesAreAverage(route, output);
    WalkPricesNonNegative(route, output);
    RunsAreCutFlows(swaps, totalIn, market, e, legAmount, m, r);
    HeldBackWithinSurplus(route, output, surplus, e, u);
    UpToLeg(swaps, totalIn, market, e, legAmount);
    RunIsDrained(swaps, totalIn, market);
    RunIsDrained(swaps, totalIn, pinned);
    ShortfallBound(route, x, InputToken(swaps), output, e, m, r, u);
  }

  /** The slack of a quoted route at its own average prices. */
  ghost function RouteSlack(route: seq<Swap>, output: Token, e: nat, m: seq<nat>, r: nat): real
    requires e < |route| == |m|
  {
    Slack(route, e, WalkPrices(route, output), m, r, |route|)
  }

  /** What rounding each division can cost the swaps. */
  ghost function Roundings(swaps: seq<Swap>): (m: seq<nat>)
    ensures |m| == |swaps| && forall i | 0 <= i < |swaps| :: m[i] == Rounding(swaps, i)
  {
    seq(|swaps|, i requires 0 <= i < |swaps| => Rounding(swaps, i))
  }

  ghost function NoRounding(swaps: seq<Swap>): (m: seq<nat>)
    ensures |m| == |swaps| && forall i | 0 <= i < |swaps| :: m[i] == 0
  {
    seq(|swaps|, i => 0)
  }

  // ---------------------------------------------------------------- when no swap sees more than quoted

  ghost predicate OnlyTaker(swaps: seq<Swap>, i: nat)
    requires i < |swaps|
  {
    forall j | 0 <= j < |swaps| && j != i :: swaps[j].tokenIn != swaps[i].tokenIn
  }

  /**
   Dividing what the leg's token has left when the leg pays `legAmount` gives swap `i` the same part
   as quoted, and nothing after the leg pays that token.
   */
  ghost predicate ExactAtLeg(route: seq<Swap>, e: nat, legAmount: nat, i: nat)
    requires e < |route| && i < |route|
  {
    && route[i].tokenIn == route[e].tokenOut
    && (forall j | e < j < |route| :: route[j].tokenOut != route[e].tokenOut)
    && legAmount <= route[e].amountOut
    && var total := TotalIn(route, route[e].tokenOut);
       var cut := route[e].amountOut - legAmount;
       cut <= total && Share(route, i, total - cut) * total == route[i].amountIn * (total - cut)
  }

  /** Every swap that can see another input takes its token alone, or divides the leg's token exactly. */
  ghost predicate DividesExactly(route: seq<Swap>, e: nat, legAmount: nat)
    requires e < |route|
  {
    forall i | 0 <= i < |route| && Affected(route, e, i) :: OnlyTaker(route, i) || ExactAtLeg(route, e, legAmount, i)
  }

  /** The pinned run has not moved more than quoted by swap `k`, and moved the same where nothing is affected. */
  ghost predicate Shrunk<S>(q: seq<SimulatedSwap>, x: Sim<S>, swaps: seq<Swap>, e: nat, legAmount: nat, k: nat)
    requires e < |swaps| && k <= |swaps| <= |q| && |x.swaps| == k
  {
    forall i | 0 <= i < k :: SwapShrunk(q[i], x.swaps[i], swaps, e, legAmount, i)
  }

  ghost predicate SwapShrunk(
    quoted: SimulatedSwap, run: SimulatedSwap, swaps: seq<Swap>, e: nat, legAmount: nat, i: nat)
    requires e < |swaps| && i < |swaps|
  {
    && run.amountIn <= quoted.amountIn && run.amountOut <= quoted.amountOut
    && (i == e ==> run.amountOut == legAmount)
    && (i != e && !Affected(swaps, e, i) ==> run.amountOut == quoted.amountOut)
  }

  /** What is collected of the token of swap `k` in a run with at most the quoted payments. */
  lemma CollectedShrinks(q: seq<Swap>, x: seq<Swap>, e: nat, legAmount: nat, t: Token)
    requires SameShape(q, x) && forall i | 0 <= i < |q| :: x[i].amountOut <= q[i].amountOut
    requires e < |q| && x[e].amountOut == legAmount
    ensures TotalOut(x, t) <= TotalOut(q, t)
    ensures q[e].tokenOut == t && SamePaymentsBut(q, x, e, t) ==>
              TotalOut(x, t) == TotalOut(q, t) - (q[e].amountOut - legAmount)
  {
    TotalOutMonotone(q, x, t);
    if q[e].tokenOut == t && SamePaymentsBut(q, x, e, t) {
      TotalOutExceptLeg(q, x, e, t);
    }
  }

  /** All swaps but `e` pay the same amounts of `t`. */
  ghost predicate SamePaymentsBut(q: seq<Swap>, x: seq<Swap>, e: nat, t: Token)
    requires SameShape(q, x)
  {
    forall i | 0 <= i < |q| && i != e && q[i].tokenOut == t :: x[i].amountOut == q[i].amountOut
  }

  lemma {:induction false} TotalOutExceptLeg(q: seq<Swap>, x: seq<Swap>, e: nat, t: Token)
    requires SameShape(q, x) && SamePaymentsBut(q, x, e, t)
    ensures if e < |q| && q[e].tokenOut == t then TotalOut(x, t) + q[e].amountOut == TotalOut(q, t) + x[e].amountOut
            else TotalOut(x, t) == TotalOut(q, t)
  {
    if |q| > 0 {
      TotalOutExceptLeg(q[..|q| - 1], x[..|x| - 1], e, t);
    }
  }

  lemma {:induction false} TakenIgnoresAmounts(swaps: seq<Swap>, route: seq<Swap>, k: nat, t: Token, total: nat)
    requires |swaps| == |route| && k <= |swaps|
    requires forall i | 0 <= i < |swaps| :: swaps[i].tokenIn == route[i].tokenIn && swaps[i].split == route[i].split
    ensures Taken(swaps, k, t, total) == Taken(route, k, t, total)
    ensures k < |swaps| ==> swaps[k].tokenIn == t ==> Share(swaps, k, total) == Share(route, k, total)
  {
    hide Part;
    if k > 0 {
      TakenIgnoresAmounts(swaps, route, k - 1, t, total);
    }
  }

  /** What is collected for swap `k` in the quoted and in the pinned run, and that it takes its share of it. */
  lemma TwoCollections<S>(swaps: seq<Swap>, k: nat, totalIn: nat, market: Market<S>, e: nat, legAmount: nat)
    returns (q: seq<Swap>, x: seq<Swap>, initial: nat)
    requires QuotedRoute(swaps, totalIn, market, e) && k < |swaps|
    requires PinnedPrefix(swaps, k, totalIn, market, e, legAmount).Ok?
    ensures var st, t := PinnedPrefix(swaps, k, totalIn, market, e, legAmount).value, swaps[k].tokenIn;
            && q == Quoted(swaps, totalIn, market)[..k] && x == Flow(swaps, k, st)
            && Take(st, swaps[k]) == Share(swaps, k, initial + TotalOut(x, t))
            && initial + TotalOut(q, t) == TotalIn(Quoted(swaps, totalIn, market), t)
            && Quoted(swaps, totalIn, market)[k].amountIn == Share(swaps, k, initial + TotalOut(q, t))
  {
    hide RunRoute, PinnedPrefix, Topological, RemainderLast, PaidBeforeTaken, EndsInRemainder, TakenIn, Share,
         TotalIn, TotalOut, ExclusiveRouteShape, ZeroInZeroOut, UsedOnce, Take, Initial;
    var t := swaps[k].tokenIn;
    RulesOfToken(swaps, k);
    initial := Initial(InputToken(swaps), totalIn, t);
    q := Quoted(swaps, totalIn, market)[..k];
    x := Flow(swaps, k, PinnedPrefix(swaps, k, totalIn, market, e, legAmount).value);
    PinnedTakesShare(swaps, k, totalIn, market, e, legAmount);
    RunDivides(swaps, totalIn, market, k);
    QuotedCollection(swaps, k, totalIn, market);
  }

  lemma PinnedTakesShare<S>(swaps: seq<Swap>, k: nat, totalIn: nat, market: Market<S>, e: nat, legAmount: nat)
    requires e < |swaps| && k < |swaps| && PinnedPrefix(swaps, k, totalIn, market, e, legAmount).Ok?
    requires PaidBeforeTaken(swaps, swaps[k].tokenIn)
    ensures var st, t := PinnedPrefix(swaps, k, totalIn, market, e, legAmount).value, swaps[k].tokenIn;
            Take(st, swaps[k])
            == Share(swaps, k, Initial(InputToken(swaps), totalIn, t) + TotalOut(Flow(swaps, k, st), t))
  {
    hide Run, Share, TotalOut, Take, Flow;
    TakeIsShare(swaps, k, InputToken(swaps), totalIn, Pinned(market, swaps[e].component, legAmount));
  }

  lemma QuotedCollection<S>(swaps: seq<Swap>, k: nat, totalIn: nat, market: Market<S>)
    requires k < |swaps| && RunRoute(swaps, totalIn, market).Ok?
    requires PaidBeforeTaken(swaps, swaps[k].tokenIn) && EndsInRemainder(swaps, swaps[k].tokenIn)
    requires TakenIn(swaps, 0, |swaps|, swaps[k].tokenIn)
    ensures var q, t := Quoted(swaps, totalIn, market), swaps[k].tokenIn;
            Initial(InputToken(swaps), totalIn, t) + TotalOut(q[..k], t) == TotalIn(q, t)
  {
    hide Run, EndsInRemainder, TakenIn, TotalIn, TotalOut;
    var q, t := Quoted(swaps, totalIn, market), swaps[k].tokenIn;
    WriteBackIsFlow(swaps, Run(swaps, |swaps|, Start(InputToken(swaps), totalIn), market).value);
    PaidBefore(q, k);
    RunDrains(swaps, InputToken(swaps), totalIn, market, t);
  }

  /** Where the swaps before it moved no more than quoted, a swap takes no more than quoted. */
  lemma TakeShrinks<S>(swaps: seq<Swap>, k: nat, totalIn: nat, market: Market<S>, e: nat, legAmount: nat)
    requires QuotedRoute(swaps, totalIn, market, e) && e < k < |swaps|
    requires DividesExactly(Quoted(swaps, totalIn, market), e, legAmount)
    requires PinnedPrefix(swaps, k, totalIn, market, e, legAmount).Ok?
    requires Shrunk(RunRoute(swaps, totalIn, market).value.swaps,
                    PinnedPrefix(swaps, k, totalIn, market, e, legAmount).value,
                    swaps, e, legAmount, k)
    ensures var st := PinnedPrefix(swaps, k, totalIn, market, e, legAmount).value;
            && Take(st, swaps[k]) <= RunRoute(swaps, totalIn, market).value.swaps[k].amountIn
            && (!Affected(swaps, e, k) ==>
                  Take(st, swaps[k]) == RunRoute(swaps, totalIn, market).value.swaps[k].amountIn)
  {
    hide RunRoute, PinnedPrefix, TotalIn, TotalOut, Share, Take, ExclusiveRouteShape, ZeroInZeroOut, UsedOnce,
         Affected, OnlyTaker, ExactAtLeg;
    var route, t := Quoted(swaps, totalIn, market), swaps[k].tokenIn;
    var q, x, initial := TwoCollections(swaps, k, totalIn, market, e, legAmount);
    PrefixesShrink(swaps, k, totalIn, market, e, legAmount, q, x);
    SameAffected(swaps, route, e, k);
    if !Affected(swaps, e, k) {
      SameCollection(swaps, q, x, e, k);
    } else if OnlyTaker(route, k) {
      CollectedShrinks(q, x, e, legAmount, t);
      LoneTakerTakesAll(swaps, route, k, initial + TotalOut(q, t));
      LoneTakerTakesAll(swaps, route, k, initial + TotalOut(x, t));
    } else {
      ExactTakeShrinks(swaps, route, q, x, e, legAmount, k, initial);
    }
  }

  /** The flows before swap `k`. */
  ghost predicate PrefixShrunk(swaps: seq<Swap>, q: seq<Swap>, x: seq<Swap>, e: nat, legAmount: nat)
    requires |q| <= |swaps|
  {
    && SameShape(q, x) && SameShape(swaps[..|q|], q) && e < |q| && x[e].amountOut == legAmount
    && (forall i | 0 <= i < |q| :: x[i].amountOut <= q[i].amountOut)
    && (forall i | 0 <= i < e :: x[i].amountOut == q[i].amountOut)
  }

  lemma PrefixesShrink<S>(
    swaps: seq<Swap>, k: nat, totalIn: nat, market: Market<S>, e: nat, legAmount: nat, q: seq<Swap>, x: seq<Swap>)
    requires e < k < |swaps| && RunRoute(swaps, totalIn, market).Ok?
    requires PinnedPrefix(swaps, k, totalIn, market, e, legAmount).Ok?
    requires Shrunk(RunRoute(swaps, totalIn, market).value.swaps,
                    PinnedPrefix(swaps, k, totalIn, market, e, legAmount).value,
                    swaps, e, legAmount, k)
    requires q == Quoted(swaps, totalIn, market)[..k]
    requires x == Flow(swaps, k, PinnedPrefix(swaps, k, totalIn, market, e, legAmount).value)
    ensures PrefixShrunk(swaps, q, x, e, legAmount)
  {
    hide RunRoute, PinnedPrefix, SwapShrunk;
    var sims := RunRoute(swaps, totalIn, market).value.swaps;
    var st := PinnedPrefix(swaps, k, totalIn, market, e, legAmount).value;
    forall i | 0 <= i < k
      ensures x[i].amountOut <= q[i].amountOut && (i == e ==> x[i].amountOut == legAmount)
      ensures i < e ==> x[i].amountOut == q[i].amountOut
    {
      assert SwapShrunk(sims[i], st.swaps[i], swaps, e, legAmount, i);
      ShrunkAmounts(sims[i], st.swaps[i], swaps, e, legAmount, i);
    }
  }

  lemma ShrunkAmounts(quoted: SimulatedSwap, run: SimulatedSwap, swaps: seq<Swap>, e: nat, legAmount: nat, i: nat)
    requires e < |swaps| && i < |swaps| && SwapShrunk(quoted, run, swaps, e, legAmount, i)
    ensures run.amountOut <= quoted.amountOut && (i == e ==> run.amountOut == legAmount)
    ensures i < e ==> run.amountOut == quoted.amountOut
  {}

  lemma SameCollection(swaps: seq<Swap>, q: seq<Swap>, x: seq<Swap>, e: nat, k: nat)
    requires k < |swaps| && |q| == k && Topological(swaps) && e < k && !Affected(swaps, e, k)
    requires exists legAmount :: PrefixShrunk(swaps, q, x, e, legAmount)
    ensures TotalOut(q, swaps[k].tokenIn) == TotalOut(x, swaps[k].tokenIn)
  {
    hide TotalOut;
    var t := swaps[k].tokenIn;
    var j :| 0 <= j < e + 1 && swaps[j].tokenIn == t;
    forall i | 0 <= i < k && q[i].tokenOut == t
      ensures i < e
    {
      assert swaps[..k][i].tokenOut == t;
      assert i < j;
    }
    TotalOutExceptLeg(q, x, e, t);
  }

  lemma LoneTakerTakesAll(swaps: seq<Swap>, route: seq<Swap>, k: nat, total: nat)
    requires SameShape(swaps, route) && k < |swaps| && OnlyTaker(route, k) && RemainderLast(swaps)
    ensures Share(swaps, k, total) == total
  {
    assert !TakenIn(swaps, 0, k, swaps[k].tokenIn);
    NothingTaken(swaps, k, swaps[k].tokenIn, total);
    assert RemainderIfLast(swaps, k);
  }

  lemma ExactTakeShrinks(
    swaps: seq<Swap>, route: seq<Swap>, q: seq<Swap>, x: seq<Swap>, e: nat, legAmount: nat, k: nat, initial: nat)
    requires |route| == |swaps| && e < k < |swaps| && q == route[..k] && ExactAtLeg(route, e, legAmount, k)
    requires forall i | 0 <= i < |swaps| ::
               && swaps[i].tokenIn == route[i].tokenIn && swaps[i].tokenOut == route[i].tokenOut
               && swaps[i].split == route[i].split
    requires PrefixShrunk(swaps, q, x, e, legAmount)
    requires initial + TotalOut(q, swaps[k].tokenIn) == TotalIn(route, swaps[k].tokenIn)
    requires route[k].amountIn == Share(swaps, k, TotalIn(route, swaps[k].tokenIn))
    ensures Share(swaps, k, initial + TotalOut(x, swaps[k].tokenIn)) <= route[k].amountIn
  {
    hide TotalOut, TotalIn, Share;
    var t := swaps[k].tokenIn;
    CollectedShrinks(q, x, e, legAmount, t);
    var total, cut := TotalIn(route, t), route[e].amountOut - legAmount;
    assert initial + TotalOut(x, t) == total - cut;
    TakenIgnoresAmounts(swaps, route, k, t, total - cut);
    ShareWithin(swaps, k, total - cut);
    PartOfSmaller(Share(swaps, k, total - cut), route[k].amountIn, total - cut, total);
  }

  lemma ShareWithin(swaps: seq<Swap>, k: nat, total: nat)
    requires k < |swaps|
    ensures Share(swaps, k, total) <= total
  {}

  lemma PartOfSmaller(part': nat, part: nat, whole': nat, whole: nat)
    requires whole' <= whole && part' <= whole' && part' * whole == part * whole'
    ensures part' <= part
  {
    assert part * whole' <= part * whole;
    if whole > 0 {
      assert (part' - part) * whole <= 0;
    }
  }

  /** Of a swap that takes no more than quoted, its pool serves it and pays no more than quoted. */
  lemma SmallerServed<S>(market: Market<S>, swap: Swap, taken: nat, quoted: nat, r: nat, affected: bool)
    requires swap.component in market.states && PaidFor(market, swap, quoted).Some?
    requires taken <= quoted && (!affected ==> taken == quoted)
    requires affected ==> DiminishingReturns(market, swap, r) && ServesLess(market, swap)
    ensures var small, large := PaidFor(market, swap, taken), PaidFor(market, swap, quoted);
            && small.Some? && small.value.amount <= large.value.amount
            && (!affected ==> small.value.amount == large.value.amount)
  {
    hide PaidFor;
    if affected {
      assert GivesLessPerUnit(market, swap, taken, quoted, r);
    }
  }

  lemma {:induction false} PinnedShrinks<S>(
    swaps: seq<Swap>, k: nat, totalIn: nat, market: Market<S>, e: nat, legAmount: nat, r: nat)
    requires QuotedRoute(swaps, totalIn, market, e) && e < k <= |swaps|
    requires legAmount <= Quoted(swaps, totalIn, market)[e].amountOut
    requires DividesExactly(Quoted(swaps, totalIn, market), e, legAmount)
    requires forall i | 0 <= i < |swaps| && Affected(swaps, e, i) ::
               DiminishingReturns(market, swaps[i], r) && ServesLess(market, swaps[i])
    ensures PinnedPrefix(swaps, k, totalIn, market, e, legAmount).Ok?
    ensures Shrunk(RunRoute(swaps, totalIn, market).value.swaps,
                   PinnedPrefix(swaps, k, totalIn, market, e, legAmount).value,
                   swaps, e, legAmount, k)
  {
    hide RunRoute, PinnedPrefix, UsedOnce, ExclusiveRouteShape, ZeroInZeroOut, Topological, RemainderLast,
         DividesExactly, DiminishingReturns, ServesLess, PaidFor, Take, Affected;
    if k == e + 1 {
      UpToLegPrefix(swaps, totalIn, market, e, legAmount);
      UpToLegShrunk(swaps, totalIn, market, e, legAmount);
    } else {
      var j := k - 1;
      PinnedShrinks(swaps, j, totalIn, market, e, legAmount, r);
      TakeShrinks(swaps, j, totalIn, market, e, legAmount);
      LaterPoolPays(swaps, totalIn, market, e, j);
      var sims := RunRoute(swaps, totalIn, market).value.swaps;
      var st := PinnedPrefix(swaps, j, totalIn, market, e, legAmount).value;
      SmallerServed(market, swaps[j], Take(st, swaps[j]), sims[j].amountIn, r, Affected(swaps, e, j));
      PinnedStepSucceeds(swaps, j, totalIn, market, e, legAmount);
      PinnedStepAmounts(swaps, j, totalIn, market, e, legAmount);
      assert SwapShrunk(sims[j], PinnedPrefix(swaps, k, totalIn, market, e, legAmount).value.swaps[j], swaps, e,
                        legAmount, j);
    }
  }

  lemma UpToLegShrunk<S>(swaps: seq<Swap>, totalIn: nat, market: Market<S>, e: nat, legAmount: nat)
    requires e < |swaps| && UsedOnce(swaps, e) && RunRoute(swaps, totalIn, market).Ok?
    requires legAmount <= RunRoute(swaps, totalIn, market).value.swaps[e].amountOut
    ensures PinnedPrefix(swaps, e + 1, totalIn, market, e, legAmount).Ok?
    ensures Shrunk(RunRoute(swaps, totalIn, market).value.swaps,
                   PinnedPrefix(swaps, e + 1, totalIn, market, e, legAmount).value,
                   swaps, e, legAmount, e + 1)
  {
    hide RunRoute, PinnedPrefix, UsedOnce;
    UpToLegPrefix(swaps, totalIn, market, e, legAmount);
  }

  // ---------------------------------------------------------------- the guarantee

  /**
   Whatever the splits and the pools after the leg, a pinned route that runs delivers at least the
   committed amount less what rounding can cost at the quoted prices; and it runs if those pools serve
   every amount. The slack is known from the quote alone.
   */
  lemma UserGuarantee<S>(swaps: seq<Swap>, totalIn: nat, market: Market<S>, e: nat, committed: nat, r: nat)
    requires QuotedRoute(swaps, totalIn, market, e) && SplitsFit(swaps)
    requires committed <= RunRoute(swaps, totalIn, market).value.amountOut
    requires forall i | 0 <= i < |swaps| && Affected(swaps, e, i) :: DiminishingReturns(market, swaps[i], r)
    ensures var x := PinnedRun(swaps, totalIn, market, e, committed);
            && ((forall i | e < i < |swaps| :: ServesEvery(market, swaps[i])) ==> x.Ok?)
            && (x.Ok? ==>
                  x.value.amountOut as real >= committed as real
                    - RouteSlack(Quoted(swaps, totalIn, market), LastToken(swaps), e, Roundings(swaps), r))
  {
    hide RunRoute, LegCommitment, DiminishingReturns, ServesEvery, SplitsFit, RouteSlack, UsedOnce, Topological,
         RemainderLast, ExclusiveRouteShape, ZeroInZeroOut, Affected, TakesNearPart, RunPinned, Rounding;
    var legAmount := PinnedAt(swaps, totalIn, market, e, committed);
    if forall i | e < i < |swaps| :: ServesEvery(market, swaps[i]) {
      PinnedRunSucceeds(swaps, totalIn, market, e, legAmount);
    }
    if RunPinned(swaps, totalIn, market, e, legAmount).Ok? {
      var m := Roundings(swaps);
      var q, x := Quoted(swaps, totalIn, market), PinnedFlow(swaps, totalIn, market, e, legAmount);
      forall i | 0 <= i < |swaps| && Affected(swaps, e, i)
        ensures TakesNearPart(q, x, i, m[i])
      {
        RunTakesNearPart(swaps, totalIn, market, e, legAmount, i);
      }
      var surplus := RunRoute(swaps, totalIn, market).value.amountOut - committed;
      PinnedLegBound(swaps, totalIn, market, e, surplus, legAmount, m, r);
    }
  }

  lemma RunTakesNearPart<S>(swaps: seq<Swap>, totalIn: nat, market: Market<S>, e: nat, legAmount: nat, i: nat)
    requires e < |swaps| && i < |swaps| && Topological(swaps) && RemainderLast(swaps) && SplitsFit(swaps)
    requires RunRoute(swaps, totalIn, market).Ok? && RunPinned(swaps, totalIn, market, e, legAmount).Ok?
    ensures var q, x := Quoted(swaps, totalIn, market), PinnedFlow(swaps, totalIn, market, e, legAmount);
            TakesNearPart(q, x, i, Rounding(swaps, i))
  {
    hide RunRoute, Topological, RemainderLast, SplitsFit, Share, TotalIn, Rounding, NearPart;
    var pinned := Pinned(market, swaps[e].component, legAmount);
    var q, x := Quoted(swaps, totalIn, market), WriteBack(swaps, RunRoute(swaps, totalIn, pinned).value.swaps);
    RunDivides(swaps, totalIn, market, i);
    RunDivides(swaps, totalIn, pinned, i);
    ShareNearPart(swaps, i, TotalIn(x, swaps[i].tokenIn), TotalIn(q, swaps[i].tokenIn));
  }

  /**
   Where every token divided anew after the leg is divided in the same proportions, which the quote and
   the leg's commitment tell, the pinned route runs and delivers the committed amount, less only what
   the pools themselves round.
   */
  lemma ProportionalGuarantee<S>(swaps: seq<Swap>, totalIn: nat, market: Market<S>, e: nat, committed: nat, r: nat)
    requires QuotedRoute(swaps, totalIn, market, e)
    requires committed <= RunRoute(swaps, totalIn, market).value.amountOut
    requires DividesExactly(Quoted(swaps, totalIn, market), e, PinnedAt(swaps, totalIn, market, e, committed))
    requires forall i | 0 <= i < |swaps| && Affected(swaps, e, i) ::
               DiminishingReturns(market, swaps[i], r) && ServesLess(market, swaps[i])
    ensures var x := PinnedRun(swaps, totalIn, market, e, committed);
            && x.Ok?
            && x.value.amountOut as real >= committed as real
                 - RouteSlack(Quoted(swaps, totalIn, market), LastToken(swaps), e, NoRounding(swaps), r)
            && (r == 0 ==> x.value.amountOut >= committed)
  {
    hide RunRoute, LegCommitment, DiminishingReturns, ServesLess, UsedOnce, Topological, RemainderLast,
         ExclusiveRouteShape, ZeroInZeroOut, Affected, TakesNearPart, RunPinned, DividesExactly, Slack, WalkPrices;
    var surplus := RunRoute(swaps, totalIn, market).value.amountOut - committed;
    var legAmount, m := PinnedAt(swaps, totalIn, market, e, committed), NoRounding(swaps);
    var q := Quoted(swaps, totalIn, market);
    CommitmentWithinLeg(q, LastToken(swaps), surplus, e);
    ShrunkRun(swaps, totalIn, market, e, legAmount, r);
    var x := PinnedFlow(swaps, totalIn, market, e, legAmount);
    forall i | 0 <= i < |swaps| && Affected(swaps, e, i)
      ensures TakesNearPart(q, x, i, m[i])
    {
      ExactPart(swaps, totalIn, market, e, legAmount, i);
    }
    PinnedLegBound(swaps, totalIn, market, e, surplus, legAmount, m, r);
    NoSlack(q, e, WalkPrices(q, LastToken(swaps)), m, |q|);
  }

  lemma CommitmentWithinLeg(route: seq<Swap>, output: Token, surplus: nat, e: nat)
    requires ZeroInZeroOut(route) && ExclusiveRouteShape(route, output) == Valid
    requires e < |route| && route[e].exclusive
    ensures LegCommitment(route, output, surplus, e) <= route[e].amountOut
  {
    hide LegOutput, LegCut, ZeroInZeroOut, ExclusiveRouteShape;
    ValidLeg(route, output, e);
  }

  lemma ShrunkRun<S>(swaps: seq<Swap>, totalIn: nat, market: Market<S>, e: nat, legAmount: nat, r: nat)
    requires QuotedRoute(swaps, totalIn, market, e)
    requires legAmount <= Quoted(swaps, totalIn, market)[e].amountOut
    requires DividesExactly(Quoted(swaps, totalIn, market), e, legAmount)
    requires forall i | 0 <= i < |swaps| && Affected(swaps, e, i) ::
               DiminishingReturns(market, swaps[i], r) && ServesLess(market, swaps[i])
    ensures var x := RunPinned(swaps, totalIn, market, e, legAmount);
            && x.Ok?
            && forall i | 0 <= i < |swaps| ::
                 SwapShrunk(RunRoute(swaps, totalIn, market).value.swaps[i], x.value.swaps[i], swaps, e, legAmount, i)
  {
    hide Run, DividesExactly, DiminishingReturns, ServesLess, Affected, SwapShrunk, UsedOnce, Topological,
         RemainderLast, ExclusiveRouteShape, ZeroInZeroOut;
    PinnedShrinks(swaps, |swaps|, totalIn, market, e, legAmount, r);
  }

  /** A swap that takes its token alone or divides it exactly takes its part. */
  lemma ExactPart<S>(swaps: seq<Swap>, totalIn: nat, market: Market<S>, e: nat, legAmount: nat, i: nat)
    requires QuotedRoute(swaps, totalIn, market, e) && i < |swaps| && Affected(swaps, e, i)
    requires DividesExactly(Quoted(swaps, totalIn, market), e, legAmount)
    requires var x := RunPinned(swaps, totalIn, market, e, legAmount);
             && x.Ok?
             && forall j | 0 <= j < |swaps| ::
                  SwapShrunk(RunRoute(swaps, totalIn, market).value.swaps[j], x.value.swaps[j], swaps, e, legAmount, j)
    ensures var q, x := Quoted(swaps, totalIn, market), PinnedFlow(swaps, totalIn, market, e, legAmount);
            TakesNearPart(q, x, i, 0)
  {
    hide RunRoute, Topological, RemainderLast, UsedOnce, ExclusiveRouteShape, ZeroInZeroOut, TotalIn, TotalOut,
         Share, TakenIn, OnlyTaker, ExactAtLeg, SwapShrunk, NearPart;
    var pinned := Pinned(market, swaps[e].component, legAmount);
    var q, x := Quoted(swaps, totalIn, market), WriteBack(swaps, RunRoute(swaps, totalIn, pinned).value.swaps);
    var t := swaps[i].tokenIn;
    SameAffected(swaps, q, e, i);
    RunDivides(swaps, totalIn, market, i);
    RunDivides(swaps, totalIn, pinned, i);
    if OnlyTaker(q, i) {
      LoneTakerTakesAll(swaps, q, i, TotalIn(q, t));
      LoneTakerTakesAll(swaps, q, i, TotalIn(x, t));
      WholeIsNear(TotalIn(x, t), TotalIn(q, t));
    } else {
      ExactTotal(swaps, totalIn, market, e, legAmount, i);
      ExactIsNear(swaps, q, x, e, legAmount, i);
    }
  }

  lemma WholeIsNear(whole': nat, whole: nat)
    ensures NearPart(whole', whole', whole, whole, 0)
  {}

  lemma ExactIsNear(swaps: seq<Swap>, q: seq<Swap>, x: seq<Swap>, e: nat, legAmount: nat, i: nat)
    requires |q| == |x| == |swaps| && e < |q| && i < |q| && ExactAtLeg(q, e, legAmount, i)
    requires forall j | 0 <= j < |swaps| :: swaps[j].tokenIn == q[j].tokenIn && swaps[j].split == q[j].split
    requires var t := swaps[i].tokenIn;
             && q[i].amountIn == Share(swaps, i, TotalIn(q, t)) && x[i].amountIn == Share(swaps, i, TotalIn(x, t))
             && q[e].amountOut - legAmount <= TotalIn(q, t)
             && TotalIn(x, t) == TotalIn(q, t) - (q[e].amountOut - legAmount)
    ensures NearPart(x[i].amountIn, TotalIn(x, swaps[i].tokenIn), q[i].amountIn, TotalIn(q, swaps[i].tokenIn), 0)
  {
    hide TotalIn, Share;
    TakenIgnoresAmounts(swaps, q, i, swaps[i].tokenIn, TotalIn(x, swaps[i].tokenIn));
  }

  /** What is taken of the leg's token in the pinned run. */
  lemma ExactTotal<S>(swaps: seq<Swap>, totalIn: nat, market: Market<S>, e: nat, legAmount: nat, i: nat)
    requires QuotedRoute(swaps, totalIn, market, e) && e < i < |swaps|
    requires ExactAtLeg(Quoted(swaps, totalIn, market), e, legAmount, i)
    requires var x := RunPinned(swaps, totalIn, market, e, legAmount);
             && x.Ok?
             && forall j | 0 <= j < |swaps| ::
                  SwapShrunk(RunRoute(swaps, totalIn, market).value.swaps[j], x.value.swaps[j], swaps, e, legAmount, j)
    ensures var q, x := Quoted(swaps, totalIn, market), PinnedFlow(swaps, totalIn, market, e, legAmount);
            TotalIn(x, swaps[i].tokenIn) == TotalIn(q, swaps[i].tokenIn) - (q[e].amountOut - legAmount)
  {
    hide RunRoute, RemainderLast, UsedOnce, ExclusiveRouteShape, ZeroInZeroOut, TotalIn, TotalOut, Share, SwapShrunk;
    var pinned := Pinned(market, swaps[e].component, legAmount);
    var q, x := Quoted(swaps, totalIn, market), WriteBack(swaps, RunRoute(swaps, totalIn, pinned).value.swaps);
    var t := swaps[i].tokenIn;
    RunIsDrained(swaps, totalIn, market);
    RunIsDrained(swaps, totalIn, pinned);
    assert q[i].tokenIn == t && x[i].tokenIn == t;
    TopologicalEnds(swaps);
    assert swaps[e] in swaps && swaps[i] in swaps;
    forall j | 0 <= j < |swaps|
      ensures x[j].amountOut <= q[j].amountOut && (j == e ==> x[j].amountOut == legAmount)
      ensures j < e ==> x[j].amountOut == q[j].amountOut
    {
      ShrunkAmounts(RunRoute(swaps, totalIn, market).value.swaps[j], RunRoute(swaps, totalIn, pinned).value.swaps[j],
                    swaps, e, legAmount, j);
    }
    CollectedShrinks(q, x, e, legAmount, t);
  }

  /** After the leg no token is divided anew: each is taken by one swap, or was taken before the leg pays. */
  ghost predicate NoSplitAfterLeg(swaps: seq<Swap>, e: nat)
    requires e < |swaps|
  {
    forall i | 0 <= i < |swaps| && Affected(swaps, e, i) :: OnlyTaker(swaps, i)
  }

  /** Without a split after the leg the pinned route runs and delivers the committed amount. */
  lemma SequentialGuarantee<S>(swaps: seq<Swap>, totalIn: nat, market: Market<S>, e: nat, committed: nat, r: nat)
    requires QuotedRoute(swaps, totalIn, market, e) && NoSplitAfterLeg(swaps, e)
    requires committed <= RunRoute(swaps, totalIn, market).value.amountOut
    requires forall i | 0 <= i < |swaps| && Affected(swaps, e, i) ::
               DiminishingReturns(market, swaps[i], r) && ServesLess(market, swaps[i])
    ensures var x := PinnedRun(swaps, totalIn, market, e, committed);
            && x.Ok?
            && x.value.amountOut as real >= committed as real
                 - RouteSlack(Quoted(swaps, totalIn, market), LastToken(swaps), e, NoRounding(swaps), r)
            && (r == 0 ==> x.value.amountOut >= committed)
  {
    hide RunRoute, PinnedRun, PinnedAt, DiminishingReturns, ServesLess, Affected, OnlyTaker, RouteSlack, UsedOnce,
         Topological, RemainderLast, ExclusiveRouteShape, ZeroInZeroOut, ExactAtLeg;
    var q := Quoted(swaps, totalIn, market);
    forall i | 0 <= i < |q| && Affected(q, e, i)
      ensures OnlyTaker(q, i)
    {
      SameAffected(swaps, q, e, i);
      SameTakers(swaps, q, i);
    }
    ProportionalGuarantee(swaps, totalIn, market, e, committed, r);
  }

  lemma SameTakers(swaps: seq<Swap>, route: seq<Swap>, i: nat)
    requires SameShape(swaps, route) && i < |swaps|
    ensures OnlyTaker(swaps, i) <==> OnlyTaker(route, i)
  {}
}
