/**
 Where the promise behind pinning ends: when the leg's token is split between several swaps, rounding
 the smaller amount can move a unit to a worse branch. One run that breaks the promise, one that keeps
 it, and the exact condition, on the splits and the leg's commitment, under which no prices can break it.
 */
module SplitTail {
  import opened Wrappers
  import opened Arithmetic
  import opened Routes
  import opened RouteValue
  import opened RouteLoops
  import opened Commitment
  import opened Replay
  import opened ReplayFlow
  import opened Division
  import opened Shortfall
  import opened PinnedReplay
  import opened Guarantee

  // ---------------------------------------------------------------- a leg and the branches of its token

  function PoolName(k: nat): (id: ComponentId)
    ensures |id| == k
  {
    seq(k, i => 'p')
  }

  /** A leg from token 0 to token 1, and branches from 1 to 2 that divide it by the splits. */
  function SplitRoute(splits: seq<real>): (swaps: seq<Swap>)
    ensures |swaps| == |splits| + 1 && swaps[0] == Swap(PoolName(0), 0, 1, 0, 0, 0.0, true, None)
    ensures forall j | 0 <= j < |splits| :: swaps[j + 1] == Swap(PoolName(j + 1), 1, 2, 0, 0, splits[j], false, None)
  {
    [Swap(PoolName(0), 0, 1, 0, 0, 0.0, true, None)]
    + seq(|splits|, j requires 0 <= j < |splits| => Swap(PoolName(j + 1), 1, 2, 0, 0, splits[j], false, None))
  }

  /** A pool that pays `rate` for each unit. */
  function PayRate(id: ComponentId, rate: nat, amount: nat, tokenIn: Token, tokenOut: Token): Option<Outcome<nat>> {
    Some(Outcome(rate * amount, 0, rate))
  }

  /** The leg pays one for one, branch `j` the rate `r[j]`. */
  function RateMarket(r: seq<nat>): Market<nat> {
    Market({0, 1, 2}, map k | 0 <= k <= |r| :: PoolName(k) := if k == 0 then 1 else r[k - 1], PayRate)
  }

  /** What the branches take when `total` of the leg's token is divided. */
  ghost function Divided(splits: seq<real>, total: nat): (a: seq<nat>)
    ensures |a| == |splits| && forall j | 0 <= j < |a| :: a[j] == Share(SplitRoute(splits), j + 1, total)
  {
    seq(|splits|, j requires 0 <= j < |splits| => Share(SplitRoute(splits), j + 1, total))
  }

  function Sum(a: seq<nat>): nat {
    if |a| == 0 then 0 else Sum(a[..|a| - 1]) + a[|a| - 1]
  }

  /** What the branches pay for the amounts `a` at the rates `r`. */
  function Pay(r: seq<nat>, a: seq<nat>): nat
    requires |r| == |a|
  {
    if |a| == 0 then 0 else Pay(r[..|a| - 1], a[..|a| - 1]) + r[|a| - 1] * a[|a| - 1]
  }

  /** The route when the leg takes `taken` and pays `paid`, and the branches take `a` and pay the rates `r`. */
  function Star(splits: seq<real>, taken: nat, paid: nat, a: seq<nat>, r: seq<nat>): (route: seq<Swap>)
    requires |splits| == |r| == |a|
    ensures |route| == |a| + 1 && route[0] == Swap(PoolName(0), 0, 1, taken, paid, 0.0, true, None)
    ensures forall j | 0 <= j < |a| :: route[j + 1] == Branch(j, splits[j], a[j], r[j])
  {
    if |a| == 0 then [Swap(PoolName(0), 0, 1, taken, paid, 0.0, true, None)]
    else
      var n := |a| - 1;
      Star(splits[..n], taken, paid, a[..n], r[..n]) + [Branch(n, splits[n], a[n], r[n])]
  }

  function Branch(j: nat, split: real, amount: nat, rate: nat): Swap {
    Swap(PoolName(j + 1), 1, 2, amount, rate * amount, split, false, None)
  }

  lemma {:induction false} StarTotals(splits: seq<real>, taken: nat, paid: nat, a: seq<nat>, r: seq<nat>)
    requires |splits| == |r| == |a|
    ensures var route := Star(splits, taken, paid, a, r);
            && TotalIn(route, 1) == Sum(a) && TotalOut(route, 1) == paid && TotalOut(route, 2) == Pay(r, a)
            && ExclusiveLegs(route) == [0]
  {
    var route := Star(splits, taken, paid, a, r);
    if |a| == 0 {
      assert route[..0] == [];
    } else {
      var n := |a| - 1;
      StarTotals(splits[..n], taken, paid, a[..n], r[..n]);
      assert route[..n + 1] == Star(splits[..n], taken, paid, a[..n], r[..n]);
    }
  }

  lemma StarZeroOut(splits: seq<real>, total: nat, a: seq<nat>, r: seq<nat>)
    requires |splits| == |r| == |a|
    ensures ZeroInZeroOut(Star(splits, total, total, a, r))
  {
    var route := Star(splits, total, total, a, r);
    forall s | s in route
      ensures s.amountIn == 0 ==> s.amountOut == 0
    {
      var k :| 0 <= k < |route| && route[k] == s;
      if k > 0 {
        assert route[k - 1 + 1] == Branch(k - 1, splits[k - 1], a[k - 1], r[k - 1]);
      }
    }
  }

  // ---------------------------------------------------------------- the runs of such a route

  lemma SplitRouteRules(splits: seq<real>)
    requires |splits| > 0 && splits[|splits| - 1] <= 0.0
    ensures var swaps := SplitRoute(splits);
            && Topological(swaps) && RemainderLast(swaps) && UsedOnce(swaps, 0)
            && LastToken(swaps) == 2 && InputToken(swaps) == 0
  {
    var swaps := SplitRoute(splits);
    SwapKinds(splits);
    forall i | 0 <= i < |swaps|
      ensures RemainderIfLast(swaps, i)
    {
      if 0 < i < |splits| {
        assert swaps[|splits|].tokenIn == swaps[i].tokenIn;
      }
    }
  }

  lemma SwapKinds(splits: seq<real>)
    ensures var swaps := SplitRoute(splits);
            forall k | 0 <= k < |swaps| ::
              && swaps[k].component == PoolName(k) && swaps[k].tokenIn == (if k == 0 then 0 else 1)
              && swaps[k].tokenOut == (if k == 0 then 1 else 2)
              && swaps[k].split == (if k == 0 then 0.0 else splits[k - 1])
  {
    var swaps := SplitRoute(splits);
    forall k | 0 < k < |swaps|
      ensures swaps[k] == Swap(PoolName(k), 1, 2, 0, 0, splits[k - 1], false, None)
    {
      assert swaps[k - 1 + 1] == Swap(PoolName(k - 1 + 1), 1, 2, 0, 0, splits[k - 1], false, None);
    }
  }

  /** The market knows every token and pool of the swaps. */
  ghost predicate KnownTo(swaps: seq<Swap>, market: Market<nat>) {
    forall s | s in swaps ::
      s.tokenIn in market.tokens && s.tokenOut in market.tokens && s.component in market.states
  }

  /** A run in which every token and pool is known and every pool serves every amount succeeds. */
  lemma {:induction false} AlwaysServed(swaps: seq<Swap>, k: nat, st: Sim<nat>, market: Market<nat>)
    requires k <= |swaps| && market.pay == PayRate
    requires KnownTo(swaps, market)
    ensures Run(swaps, k, st, market).Ok?
  {
    hide Take;
    if k > 0 {
      AlwaysServed(swaps, k - 1, st, market);
    }
  }

  lemma RateMarketServes(splits: seq<real>, r: seq<nat>, total: nat)
    requires |splits| == |r|
    ensures RunRoute(SplitRoute(splits), total, RateMarket(r)).Ok?
    ensures forall i | 0 <= i < |splits| + 1 :: ServesEvery(RateMarket(r), SplitRoute(splits)[i])
    ensures forall i | 0 <= i < |splits| + 1 :: DiminishingReturns(RateMarket(r), SplitRoute(splits)[i], 0)
  {
    hide Run, DiminishingReturns, SplitRoute, ServesEvery;
    var swaps, market := SplitRoute(splits), RateMarket(r);
    PoolsKnown(splits, r);
    AlwaysServed(swaps, |swaps|, Start(InputToken(swaps), total), market);
    forall i | 0 <= i < |splits| + 1
      ensures DiminishingReturns(market, swaps[i], 0) && ServesEvery(market, swaps[i])
    {
      ConstantRateDiminishes(market, swaps[i]);
      ConstantRateServes(market, swaps[i]);
    }
  }

  lemma PoolsKnown(splits: seq<real>, r: seq<nat>)
    requires |splits| == |r|
    ensures var market := RateMarket(r);
            KnownTo(SplitRoute(splits), market)
  {
    SwapKinds(splits);
  }

  lemma ConstantRateServes(market: Market<nat>, swap: Swap)
    requires market.pay == PayRate
    ensures ServesEvery(market, swap)
  {}

  lemma ConstantRateDiminishes(market: Market<nat>, swap: Swap)
    requires market.pay == PayRate
    ensures DiminishingReturns(market, swap, 0)
  {
    if swap.component in market.states {
      var rate := market.states[swap.component];
      forall x: nat, y: nat | x <= y
        ensures GivesLessPerUnit(market, swap, x, y, 0)
      {
        assert rate * x <= rate * y;
        assert rate * x * y == rate * y * x;
      }
    }
  }

  /** What the swaps of the route pay in a run, when the leg pays `paid`. */
  ghost predicate PaysRates(splits: seq<real>, r: seq<nat>, sims: seq<SimulatedSwap>, paid: nat)
    requires |sims| == |splits| + 1 && |r| == |splits|
  {
    && sims[0].amountOut == paid
    && forall j | 0 <= j < |splits| :: sims[j + 1].amountOut == r[j] * sims[j + 1].amountIn
  }

  /** In any run that pays the rates, the branches divide what the leg pays, and deliver its worth. */
  lemma StarFlow(splits: seq<real>, r: seq<nat>, total: nat, market: Market<nat>, paid: nat)
    requires |splits| == |r| > 0 && splits[|splits| - 1] <= 0.0 && RunRoute(SplitRoute(splits), total, market).Ok?
    requires PaysRates(splits, r, RunRoute(SplitRoute(splits), total, market).value.swaps, paid)
    ensures var x, a := RunRoute(SplitRoute(splits), total, market).value, Divided(splits, paid);
            && WriteBack(SplitRoute(splits), x.swaps) == Star(splits, total, paid, a, r)
            && x.amountOut == Pay(r, a) && Sum(a) == paid
  {
    hide RunRoute, TotalIn, TotalOut, Sum, Pay, Topological, RemainderLast, UsedOnce, Star, WriteBack, Share,
         PaysRates;
    var swaps := SplitRoute(splits);
    var x := RunRoute(swaps, total, market).value;
    var ins := seq(|splits|, j requires 0 <= j < |splits| => x.swaps[j + 1].amountIn);
    FlowIsStar(splits, r, x.swaps, paid, ins);
    StarTotals(splits, x.swaps[0].amountIn, paid, ins, r);
    StarDrained(splits, total, market);
    forall j | 0 <= j < |splits|
      ensures ins[j] == Share(swaps, j + 1, paid)
    {
      StarDivides(splits, total, market, j + 1);
    }
    StarDivides(splits, total, market, 0);
    LegTakesAll(splits, total);
    assert ins == Divided(splits, paid);
  }

  lemma StarDrained(splits: seq<real>, total: nat, market: Market<nat>)
    requires |splits| > 0 && splits[|splits| - 1] <= 0.0 && RunRoute(SplitRoute(splits), total, market).Ok?
    ensures var x := RunRoute(SplitRoute(splits), total, market).value;
            var flow := WriteBack(SplitRoute(splits), x.swaps);
            TotalIn(flow, 0) == total && TotalIn(flow, 1) == TotalOut(flow, 1) && x.amountOut == TotalOut(flow, 2)
  {
    hide RunRoute, TotalIn, TotalOut, Topological, RemainderLast, UsedOnce;
    var swaps := SplitRoute(splits);
    SplitRouteRules(splits);
    RunIsDrained(swaps, total, market);
    assert swaps[0 + 1].tokenIn == 1;
    BranchesDrained(splits, WriteBack(swaps, RunRoute(swaps, total, market).value.swaps));
  }

  lemma StarDivides(splits: seq<real>, total: nat, market: Market<nat>, k: nat)
    requires |splits| > 0 && splits[|splits| - 1] <= 0.0 && RunRoute(SplitRoute(splits), total, market).Ok?
    requires k <= |splits|
    ensures var x := RunRoute(SplitRoute(splits), total, market).value;
            var flow := WriteBack(SplitRoute(splits), x.swaps);
            x.swaps[k].amountIn == Share(SplitRoute(splits), k, TotalIn(flow, if k == 0 then 0 else 1))
  {
    hide RunRoute, TotalIn, Topological, RemainderLast, UsedOnce, Share;
    SplitRouteRules(splits);
    SwapKinds(splits);
    RunDivides(SplitRoute(splits), total, market, k);
  }

  lemma FlowIsStar(splits: seq<real>, r: seq<nat>, sims: seq<SimulatedSwap>, paid: nat, ins: seq<nat>)
    requires |splits| == |r| == |ins| && |sims| == |splits| + 1 && PaysRates(splits, r, sims, paid)
    requires forall j | 0 <= j < |ins| :: ins[j] == sims[j + 1].amountIn
    ensures WriteBack(SplitRoute(splits), sims) == Star(splits, sims[0].amountIn, paid, ins, r)
  {
    var flow, star := WriteBack(SplitRoute(splits), sims), Star(splits, sims[0].amountIn, paid, ins, r);
    forall k | 0 <= k < |flow|
      ensures flow[k] == star[k]
    {
      if k > 0 {
        var j := k - 1;
        assert star[j + 1] == Branch(j, splits[j], ins[j], r[j]);
        assert SplitRoute(splits)[j + 1] == Swap(PoolName(j + 1), 1, 2, 0, 0, splits[j], false, None);
      }
    }
  }

  lemma BranchesDrained(splits: seq<real>, flow: seq<Swap>)
    requires |splits| > 0 && |flow| == |splits| + 1 && Drained(flow, 0, 2) && flow[1].tokenIn == 1
    ensures TotalOut(flow, 1) == TotalIn(flow, 1)
  {
    assert TakenIn(flow, 0, |flow|, 1);
  }

  lemma LegTakesAll(splits: seq<real>, total: nat)
    ensures Share(SplitRoute(splits), 0, total) == total
  {}

  /** The route as quoted and as pinned, at the rates `r`. */
  lemma QuotedAndPinned(splits: seq<real>, r: seq<nat>, total: nat, part: nat)
    requires |splits| == |r| > 0 && splits[|splits| - 1] <= 0.0 && part <= total
    ensures var swaps, market := SplitRoute(splits), RateMarket(r);
            && RunRoute(swaps, total, market).Ok? && RunPinned(swaps, total, market, 0, part).Ok?
            && Quoted(swaps, total, market) == Star(splits, total, total, Divided(splits, total), r)
            && RunRoute(swaps, total, market).value.amountOut == Pay(r, Divided(splits, total))
            && RunPinned(swaps, total, market, 0, part).value.amountOut == Pay(r, Divided(splits, part))
            && Sum(Divided(splits, total)) == total && Sum(Divided(splits, part)) == part
  {
    hide RunRoute, Pay, Sum, Divided, Star, RemainderLast, Topological;
    var swaps, market := SplitRoute(splits), RateMarket(r);
    SplitRouteRules(splits);
    RateMarketServes(splits, r, total);
    PinnedRunSucceeds(swaps, total, market, 0, part);
    QuotedPaysRates(splits, r, total);
    PinnedPaysRates(splits, r, total, part);
    StarFlow(splits, r, total, market, total);
    StarFlow(splits, r, total, Pinned(market, PoolName(0), part), part);
  }

  lemma QuotedPaysRates(splits: seq<real>, r: seq<nat>, total: nat)
    requires |splits| == |r| > 0 && splits[|splits| - 1] <= 0.0
    requires RunRoute(SplitRoute(splits), total, RateMarket(r)).Ok?
    ensures PaysRates(splits, r, RunRoute(SplitRoute(splits), total, RateMarket(r)).value.swaps, total)
  {
    hide RunRoute, SplitRoute, TotalIn, TotalOut, Share;
    var swaps, market := SplitRoute(splits), RateMarket(r);
    StarDrained(splits, total, market);
    StarDivides(splits, total, market, 0);
    LegTakesAll(splits, total);
    RatePaid(splits, r, total, 0);
    forall j | 0 <= j < |splits|
      ensures RunRoute(swaps, total, market).value.swaps[j + 1].amountOut
           == r[j] * RunRoute(swaps, total, market).value.swaps[j + 1].amountIn
    {
      RatePaid(splits, r, total, j + 1);
    }
  }

  lemma RatePaid(splits: seq<real>, r: seq<nat>, total: nat, k: nat)
    requires |splits| == |r| > 0 && splits[|splits| - 1] <= 0.0
    requires RunRoute(SplitRoute(splits), total, RateMarket(r)).Ok?
    requires k <= |splits|
    ensures var sim := RunRoute(SplitRoute(splits), total, RateMarket(r)).value.swaps[k];
            sim.amountOut == (if k == 0 then 1 else r[k - 1]) * sim.amountIn
  {
    hide RunRoute, SplitRoute, Topological, RemainderLast;
    SplitRouteRules(splits);
    SwapKinds(splits);
    PaidByMarketPool(SplitRoute(splits), total, RateMarket(r), k);
  }

  lemma PinnedPaysRates(splits: seq<real>, r: seq<nat>, total: nat, part: nat)
    requires |splits| == |r| > 0 && splits[|splits| - 1] <= 0.0 && part <= total
    requires RunRoute(SplitRoute(splits), total, RateMarket(r)).Ok?
    requires RunPinned(SplitRoute(splits), total, RateMarket(r), 0, part).Ok?
    ensures PaysRates(splits, r, RunPinned(SplitRoute(splits), total, RateMarket(r), 0, part).value.swaps, part)
  {
    hide RunRoute, RunPinned, RemainderLast, Topological;
    var swaps, market := SplitRoute(splits), RateMarket(r);
    SplitRouteRules(splits);
    QuotedPaysRates(splits, r, total);
    UpToLeg(swaps, total, market, 0, part);
    forall j | 0 <= j < |splits|
      ensures RunPinned(swaps, total, market, 0, part).value.swaps[j + 1].amountOut
           == r[j] * RunPinned(swaps, total, market, 0, part).value.swaps[j + 1].amountIn
    {
      LaterSwapPays(swaps, total, market, 0, part, j + 1);
    }
  }

  // ---------------------------------------------------------------- the value of the leg

  /** What pinning commits a route's first swap to. */
  lemma FirstLegCommitment(route: seq<Swap>, output: Token, surplus: nat, f: Fraction)
    requires |route| > 0 && ZeroInZeroOut(route) && route[0].exclusive
    requires LegOutput(route, route[0], output) == Some(f) && f.num > 0
    ensures f.den > 0 && LegCut(Min(surplus, f.num / f.den), route[0].amountOut, f) <= route[0].amountOut
    ensures LegCommitment(route, output, surplus, 0)
         == route[0].amountOut - LegCut(Min(surplus, f.num / f.den), route[0].amountOut, f)
  {
    hide LegOutput, LegCut;
    LegDenominatorPositive(route, route[0], output);
    assert LegCapture(route, output, surplus, 0) == Min(surplus, f.num / f.den);
    LegCutBounds(Min(surplus, f.num / f.den), route[0].amountOut, f);
  }

  lemma {:induction false} StarPrefixValue(splits: seq<real>, total: nat, a: seq<nat>, r: seq<nat>, k: nat)
    requires |splits| == |r| == |a| && k <= |a|
    ensures TokenOutputPrefix(Star(splits, total, total, a, r), k + 1, 1, 2, {1})
              == Some(Fraction(Pay(r[..k], a[..k]), 1))
  {
    var route := Star(splits, total, total, a, r);
    if k == 0 {
      assert TokenOutputPrefix(route, 0, 1, 2, {1}) == Some(Fraction(0, 1));
    } else {
      StarPrefixValue(splits, total, a, r, k - 1);
      assert a[..k][..k - 1] == a[..k - 1] && r[..k][..k - 1] == r[..k - 1];
      assert route[k - 1 + 1] == Branch(k - 1, splits[k - 1], a[k - 1], r[k - 1]);
    }
  }

  lemma StarLegValue(splits: seq<real>, a: seq<nat>, r: seq<nat>, total: nat)
    requires |splits| == |r| == |a| && total == Sum(a) > 0
    ensures var route := Star(splits, total, total, a, r);
            LegOutput(route, route[0], 2) == Some(Fraction(total * Pay(r, a), total))
  {
    hide TokenOutputPrefix, TotalIn;
    StarTotals(splits, total, total, a, r);
    StarPrefixValue(splits, total, a, r, |a|);
    assert a[..|a|] == a && r[..|a|] == r && {} + {1} == {1};
  }

  /** What pinning makes the leg of a star pay. */
  lemma StarCommitment(splits: seq<real>, a: seq<nat>, r: seq<nat>, surplus: nat, total: nat, paid: nat, worth: nat)
    requires |splits| == |r| == |a| && total == Sum(a) > 0 && paid == Pay(r, a) > 0 && surplus <= paid
    requires worth == total * paid
    ensures var route := Star(splits, total, total, a, r);
            && ZeroInZeroOut(route) && ExclusiveRouteShape(route, 2) == Valid
            && worth > 0 && LegCut(surplus, total, Fraction(worth, total)) <= total
            && LegCommitment(route, 2, surplus, 0) == total - LegCut(surplus, total, Fraction(worth, total))
  {
    hide LegOutput, LegCut, LegCommitment, TotalIn, TotalOut;
    StarLegValue(splits, a, r, total);
    StarTotals(splits, total, total, a, r);
    StarZeroOut(splits, total, a, r);
    Quotient(total, paid);
    FirstLegCommitment(Star(splits, total, total, a, r), 2, surplus, Fraction(worth, total));
  }

  lemma Quotient(d: nat, n: nat)
    requires d > 0
    ensures d * n / d == n && (n > 0 ==> d * n > 0)
  {
    DivisionBounds(d * n, d);
    assert d * n == n * d;
    Cancel(d * n / d, n, d);
    CancelStrict(n, d * n / d + 1, d);
  }

  /** A split route whose leg pays something worth something is quoted, and pinned as the star says. */
  lemma StarIsQuoted(splits: seq<real>, r: seq<nat>, total: nat, committed: nat, paid: nat, worth: nat)
    requires |splits| == |r| > 0 && splits[|splits| - 1] <= 0.0 && total > 0
    requires paid == Pay(r, Divided(splits, total)) && 0 < paid && committed <= paid && worth == total * paid
    ensures var swaps, market := SplitRoute(splits), RateMarket(r);
            && QuotedRoute(swaps, total, market, 0) && RunRoute(swaps, total, market).value.amountOut == paid
            && worth > 0 && LegCut(paid - committed, total, Fraction(worth, total)) <= total
            && PinnedAt(swaps, total, market, 0, committed)
               == total - LegCut(paid - committed, total, Fraction(worth, total))
  {
    hide RunRoute, RunPinned, Pay, Sum, Divided, Star, LegCut, LegCommitment, ExclusiveRouteShape, ZeroInZeroOut,
         Topological, RemainderLast, UsedOnce, Quoted, RateMarket, SplitRoute;
    SplitRouteRules(splits);
    QuotedAndPinned(splits, r, total, total);
    StarCommitment(splits, Divided(splits, total), r, paid - committed, total, paid, worth);
  }

  // ---------------------------------------------------------------- the exact condition

  /**
   Pinning the split route at the rates `r` so that it pays `committed` makes its leg pay `part`
   instead of `total`.
   */
  ghost predicate PinsTo(splits: seq<real>, total: nat, part: nat, r: seq<nat>, committed: nat) {
    && |r| == |splits|
    && var swaps, market := SplitRoute(splits), RateMarket(r);
       && QuotedRoute(swaps, total, market, 0) && committed <= RunRoute(swaps, total, market).value.amountOut
       && PinnedAt(swaps, total, market, 0, committed) == part
  }

  /** Whatever the rates and the commitment that pin the leg to `part`, the pinned run delivers the commitment. */
  ghost predicate KeepsPromise(splits: seq<real>, total: nat, part: nat) {
    forall r: seq<nat>, committed: nat | PinsTo(splits, total, part, r, committed) ::
      Delivers(splits, total, part, r, committed)
  }

  ghost predicate Delivers(splits: seq<real>, total: nat, part: nat, r: seq<nat>, committed: nat)
    requires PinsTo(splits, total, part, r, committed)
  {
    var x := PinnedRun(SplitRoute(splits), total, RateMarket(r), 0, committed);
    x.Ok? && x.value.amountOut >= committed
  }

  ghost predicate SameProportions(a: seq<nat>, b: seq<nat>)
    requires |a| == |b|
  {
    forall j | 0 <= j < |a| :: b[j] * Sum(a) == a[j] * Sum(b)
  }

  /**
   The promise holds for all rates and commitments exactly when dividing what the leg is pinned to by
   the splits gives the branches the same proportions as dividing what it was quoted to pay.
   */
  lemma PromiseIffProportional(splits: seq<real>, total: nat, part: nat)
    requires |splits| > 0 && splits[|splits| - 1] <= 0.0 && part <= total
    ensures KeepsPromise(splits, total, part) <==> SameProportions(Divided(splits, total), Divided(splits, part))
  {
    hide Pay, Sum, PinsTo, Delivers, Divided;
    var a, b := Divided(splits, total), Divided(splits, part);
    if SameProportions(a, b) {
      forall r: seq<nat>, committed: nat | PinsTo(splits, total, part, r, committed)
        ensures Delivers(splits, total, part, r, committed)
      {
        ProportionalKeeps(splits, total, part, r, committed);
      }
    } else {
      var j := ShortBranch(a, b);
      var r, committed := OneBranchBreaks(splits, total, part, j);
    }
  }

  lemma ProportionalKeeps(splits: seq<real>, total: nat, part: nat, r: seq<nat>, committed: nat)
    requires |splits| > 0 && splits[|splits| - 1] <= 0.0 && part <= total && PinsTo(splits, total, part, r, committed)
    requires SameProportions(Divided(splits, total), Divided(splits, part))
    ensures Delivers(splits, total, part, r, committed)
  {
    hide LegCut, Sum, Pay, Divided, RunRoute, RunPinned, QuotedRoute, PinnedAt, RateMarket, SplitRoute;
    var a, b := Divided(splits, total), Divided(splits, part);
    QuotedAndPinned(splits, r, total, part);
    LegIsPositive(splits, r, total);
    PinnedPart(splits, r, total, part, committed, Pay(r, a));
    PayScales(r, a, b, total, part);
    KeptArithmetic(total, part, Pay(r, a), Pay(r, b), committed);
  }

  /** The leg pays `part` because what it holds back is worth at most the surplus. */
  lemma PinnedPart(splits: seq<real>, r: seq<nat>, total: nat, part: nat, committed: nat, paid: nat)
    requires |splits| == |r| > 0 && splits[|splits| - 1] <= 0.0 && part <= total && total > 0
    requires paid == Pay(r, Divided(splits, total)) && 0 < paid && committed <= paid
    requires PinsTo(splits, total, part, r, committed)
    ensures (total - part) * (total * paid) <= (paid - committed) * total * total
  {
    hide LegCut, Sum, Pay, Divided, RunRoute, RunPinned, QuotedRoute, PinnedAt, RateMarket, SplitRoute;
    StarIsQuoted(splits, r, total, committed, paid, total * paid);
    Quotient(total, paid);
    LegCutBounds(paid - committed, total, Fraction(total * paid, total));
  }

  lemma LegIsPositive(splits: seq<real>, r: seq<nat>, total: nat)
    requires |splits| == |r| > 0 && splits[|splits| - 1] <= 0.0
    requires QuotedRoute(SplitRoute(splits), total, RateMarket(r), 0)
    ensures total > 0 && Pay(r, Divided(splits, total)) > 0
  {
    hide RunRoute, RunPinned, Pay, Sum, Divided, Star, LegOutput, ExclusiveRouteShape, Topological, RemainderLast,
         UsedOnce, ZeroInZeroOut, Quoted, RateMarket, SplitRoute;
    SplitRouteRules(splits);
    QuotedAndPinned(splits, r, total, total);
    StarIsPositive(splits, r, total, Divided(splits, total));
  }

  lemma StarIsPositive(splits: seq<real>, r: seq<nat>, total: nat, a: seq<nat>)
    requires |splits| == |r| == |a| && total == Sum(a)
    requires var route := Star(splits, total, total, a, r);
             ZeroInZeroOut(route) && ExclusiveRouteShape(route, 2) == Valid
    ensures total > 0 && Pay(r, a) > 0
  {
    hide Pay, Sum, Star, LegOutput, ExclusiveRouteShape, ZeroInZeroOut;
    var route := Star(splits, total, total, a, r);
    StarLeg(splits, total, a, r);
    ValidLeg(route, 2, 0);
    StarLegValue(splits, a, r, total);
  }

  lemma StarLeg(splits: seq<real>, total: nat, a: seq<nat>, r: seq<nat>)
    requires |splits| == |r| == |a|
    ensures var route := Star(splits, total, total, a, r);
            |route| > 0 && route[0].exclusive && route[0].amountOut == total
  {}

  lemma {:induction false} PayScales(r: seq<nat>, a: seq<nat>, b: seq<nat>, total: nat, part: nat)
    requires |r| == |a| == |b| && forall j | 0 <= j < |a| :: b[j] * total == a[j] * part
    ensures Pay(r, b) * total == Pay(r, a) * part
  {
    if |a| > 0 {
      var n := |a| - 1;
      PayScales(r[..n], a[..n], b[..n], total, part);
      ScaleTerm(Pay(r[..n], b[..n]), Pay(r[..n], a[..n]), r[n], b[n], a[n], total, part);
    }
  }

  lemma ScaleTerm(x: nat, y: nat, rate: nat, b: nat, a: nat, total: nat, part: nat)
    requires x * total == y * part && b * total == a * part
    ensures (x + rate * b) * total == (y + rate * a) * part
  {
    assert (x + rate * b) * total == x * total + rate * (b * total);
    assert (y + rate * a) * part == y * part + rate * (a * part);
  }

  lemma KeptArithmetic(total: nat, part: nat, paid: nat, paid': nat, committed: nat)
    requires total > 0 && part <= total && committed <= paid
    requires (total - part) * (total * paid) <= (paid - committed) * total * total
    requires paid' * total == paid * part
    ensures paid' >= committed
  {
    Factors(total - part, total, paid);
    Cancel((total - part) * paid, (paid - committed) * total, total);
    Distribute(total, part, paid);
    Distribute(paid, committed, total);
    Cancel(committed, paid', total);
  }

  lemma Factors(a: nat, b: nat, c: nat)
    ensures a * (b * c) == a * c * b
  {}

  // ---------------------------------------------------------------- other divisions break it

  /** If the proportions differ, some branch gets less than its part. */
  lemma ShortBranch(a: seq<nat>, b: seq<nat>) returns (j: nat)
    requires |a| == |b| && !SameProportions(a, b)
    ensures j < |a| && b[j] * Sum(a) < a[j] * Sum(b)
  {
    hide Sum;
    var total, part := Sum(a), Sum(b);
    var i :| 0 <= i < |a| && b[i] * total != a[i] * part;
    if forall k | 0 <= k < |a| :: b[k] * total >= a[k] * part {
      SumsDiffer(a, b, total, part, i);
      assert false;
    }
    j :| 0 <= j < |a| && b[j] * total < a[j] * part;
  }

  lemma {:induction false} SumsDiffer(a: seq<nat>, b: seq<nat>, total: nat, part: nat, i: nat)
    requires |a| == |b| && forall k | 0 <= k < |a| :: b[k] * total >= a[k] * part
    ensures Sum(b) * total >= Sum(a) * part
    ensures i < |a| && b[i] * total > a[i] * part ==> Sum(b) * total > Sum(a) * part
  {
    if |a| > 0 {
      var n := |a| - 1;
      SumsDiffer(a[..n], b[..n], total, part, i);
      Distribute(Sum(b[..n]), b[n], total);
      Distribute(Sum(a[..n]), a[n], part);
    }
  }

  /** The rate `rate` in branch `j` and nothing elsewhere. */
  function OneRate(n: nat, j: nat, rate: nat): (r: seq<nat>)
    ensures |r| == n && forall i | 0 <= i < n :: r[i] == if i == j then rate else 0
  {
    seq(n, i => if i == j then rate else 0)
  }

  lemma {:induction false} OneRatePays(r: seq<nat>, j: nat, rate: nat, a: seq<nat>)
    requires |r| == |a| && forall i | 0 <= i < |r| :: r[i] == if i == j then rate else 0
    ensures Pay(r, a) == if j < |a| then rate * a[j] else 0
  {
    if |a| > 0 {
      OneRatePays(r[..|a| - 1], j, rate, a[..|a| - 1]);
    }
  }

  /** The rates and the commitment that break the promise when branch `j` gets less than its part. */
  lemma OneBranchBreaks(splits: seq<real>, total: nat, part: nat, j: nat) returns (r: seq<nat>, committed: nat)
    requires |splits| > 0 && splits[|splits| - 1] <= 0.0 && part <= total && j < |splits|
    requires var a, b := Divided(splits, total), Divided(splits, part); b[j] * Sum(a) < a[j] * Sum(b)
    ensures PinsTo(splits, total, part, r, committed) && !Delivers(splits, total, part, r, committed)
  {
    hide LegCut, Sum, Pay, Divided, RunRoute, RunPinned, QuotedRoute, OneRate, PinnedAt, RateMarket, SplitRoute,
         Quoted, Star;
    var a, b := Divided(splits, total), Divided(splits, part);
    r := OneRate(|a|, j, total);
    OneRateIs(|a|, j, total);
    OneRatePays(r, j, total, a);
    OneRatePays(r, j, total, b);
    QuotedAndPinned(splits, r, total, part);
    committed := a[j] * part;
    var paid, surplus, worth := BreakingPrices(total, part, a[j], b[j], committed);
    StarIsQuoted(splits, r, total, committed, paid, worth);
  }

  lemma OneRateIs(n: nat, j: nat, rate: nat)
    ensures |OneRate(n, j, rate)| == n && forall i | 0 <= i < n :: OneRate(n, j, rate)[i] == if i == j then rate else 0
  {}

  /** What the one paying branch is paid, what is captured of it, and that the leg is cut to `part`. */
  lemma BreakingPrices(total: nat, part: nat, x: nat, y: nat, committed: nat)
    returns (paid: nat, surplus: nat, worth: nat)
    requires part <= total && y * total < x * part && committed == x * part
    ensures paid == total * x > 0 && total * y < committed && paid == committed + surplus && total > 0
    ensures worth == total * paid > 0 && LegCut(surplus, total, Fraction(worth, total)) == total - part
  {
    hide LegCut;
    paid, surplus := total * x, x * (total - part);
    BreakArithmetic(total, part, x, y, paid, committed, surplus);
    worth := total * paid;
    BreakCut(total, part, x, paid, surplus, worth);
  }

  lemma BreakArithmetic(total: nat, part: nat, x: nat, y: nat, paid: nat, committed: nat, surplus: nat)
    requires part <= total && y * total < x * part
    requires paid == total * x && committed == x * part && surplus == x * (total - part)
    ensures total > 0 && x > 0 && paid > 0 && total * y < committed && paid == committed + surplus
  {
    assert x > 0 && part > 0;
    assert x * (total - part) == x * total - x * part;
  }

  lemma BreakCut(total: nat, part: nat, x: nat, paid: nat, surplus: nat, worth: nat)
    requires part <= total && total > 0 && x > 0
    requires paid == total * x && surplus == x * (total - part) && worth == total * paid
    ensures worth > 0 && LegCut(surplus, total, Fraction(worth, total)) == total - part
  {
    assert paid > 0;
    assert worth > 0;
    assert surplus * total == (total - part) * paid;
    assert surplus * total * total == worth * (total - part);
    Quotient(worth, total - part);
  }

  // ---------------------------------------------------------------- one run that breaks the promise, one that keeps it

  /** A quoted route that meets all the guarantee asks but whose pinned run delivers less than committed. */
  ghost predicate BreaksPromise<S>(swaps: seq<Swap>, totalIn: nat, market: Market<S>, e: nat, committed: nat) {
    && QuotedRoute(swaps, totalIn, market, e) && SplitsFit(swaps)
    && committed <= RunRoute(swaps, totalIn, market).value.amountOut
    && (forall i | e < i < |swaps| :: DiminishingReturns(market, swaps[i], 0) && ServesEvery(market, swaps[i]))
    && var x := PinnedRun(swaps, totalIn, market, e, committed);
       x.Ok? && x.value.amountOut < committed
  }

  lemma HalfSplit(total: nat)
    ensures SplitAmount(total, 0.5) == total / 2
  {
    assert SplitNumerator(0.5) == 500_000_000_000_000_000;
  }

  /** Half of the leg's token, rounded down, and the rest. */
  lemma Halves(total: nat)
    ensures Divided([0.5, 0.0], total) == [total / 2, total - total / 2]
  {
    hide SplitAmount;
    HalfSplit(total);
    var swaps := SplitRoute([0.5, 0.0]);
    assert swaps[0 + 1].tokenIn == swaps[1 + 1].tokenIn == 1 && swaps[0].tokenIn == 0;
    assert Taken(swaps, 1, 1, total) == 0;
    assert Share(swaps, 0 + 1, total) == total / 2;
    assert Taken(swaps, 2, 1, total) == total / 2;
    assert Share(swaps, 1 + 1, total) == total - total / 2;
  }

  lemma HalvesFit()
    ensures SplitsFit(SplitRoute([0.5, 0.0]))
  {
    var swaps := SplitRoute([0.5, 0.0]);
    SwapKinds([0.5, 0.0]);
    forall t
      ensures SplitSum(swaps, |swaps|, t) <= 1.0
    {
      assert SplitSum(swaps, 1, t) == 0.0;
      assert SplitSum(swaps, 2, t) <= 0.5;
      assert SplitSum(swaps, 3, t) <= 0.5;
    }
  }

  lemma HalvesPay(x: nat, y: nat)
    ensures Pay([0, 3], [x, y]) == 3 * y
  {
    assert [0, 3][..1] == [0] && [x, y][..1] == [x] && [0][..0] == [] && [x][..0] == [];
    assert Pay([], []) == 0;
    assert Pay([0], [x]) == 0 * x;
  }

  /** The user is promised 4 and gets 3: the leg pays 2 instead of 3, and the better branch 1 unit less. */
  lemma SplitTailBreaksPromise()
    ensures BreaksPromise(SplitRoute([0.5, 0.0]), 3, RateMarket([0, 3]), 0, 4)
  {
    hide RunRoute, RunPinned, QuotedRoute, PinnedAt, Divided, Pay, DiminishingReturns, ServesEvery, SplitsFit,
         Quoted, Star, RateMarket, SplitRoute, LegCut;
    var splits, r := [0.5, 0.0], [0, 3];
    Halves(3);
    Halves(2);
    HalvesPay(1, 2);
    HalvesPay(1, 1);
    HalvesFit();
    RateMarketServes(splits, r, 3);
    HalfCuts();
    StarIsQuoted(splits, r, 3, 4, 6, 18);
    QuotedAndPinned(splits, r, 3, 2);
  }

  /**
   A split route with a surplus that meets all that the guarantee for exact divisions asks: the leg
   pays 2 instead of 4, both branches get half of what they were quoted, and the user the committed 3.
   */
  lemma SplitTailKeepsPromise()
    ensures var swaps, market := SplitRoute([0.5, 0.0]), RateMarket([0, 3]);
            && QuotedRoute(swaps, 4, market, 0) && RunRoute(swaps, 4, market).value.amountOut == 6
            && PinnedAt(swaps, 4, market, 0, 3) == 2 && DividesExactly(Quoted(swaps, 4, market), 0, 2)
            && (forall i | 0 <= i < |swaps| && Affected(swaps, 0, i) ::
                  DiminishingReturns(market, swaps[i], 0) && ServesLess(market, swaps[i]))
            && PinnedRun(swaps, 4, market, 0, 3).Ok? && PinnedRun(swaps, 4, market, 0, 3).value.amountOut == 3
  {
    hide RunRoute, RunPinned, QuotedRoute, PinnedAt, Divided, Pay, DiminishingReturns, ServesLess, DividesExactly,
         Star, Quoted, RateMarket, SplitRoute, LegCut, Affected;
    var splits, r := [0.5, 0.0], [0, 3];
    Halves(4);
    Halves(2);
    HalvesPay(2, 2);
    HalvesPay(1, 1);
    RatesDiminish(splits, r, 4);
    HalfCuts();
    StarIsQuoted(splits, r, 4, 3, 6, 24);
    QuotedAndPinned(splits, r, 4, 2);
    HalvesDivideExactly();
  }

  lemma HalfCuts()
    ensures LegCut(2, 3, Fraction(18, 3)) == 1 && LegCut(3, 4, Fraction(24, 4)) == 2
  {}

  lemma RatesDiminish(splits: seq<real>, r: seq<nat>, total: nat)
    requires |splits| == |r|
    ensures forall i | 0 <= i < |splits| + 1 ::
              && DiminishingReturns(RateMarket(r), SplitRoute(splits)[i], 0)
              && ServesLess(RateMarket(r), SplitRoute(splits)[i])
  {
    hide DiminishingReturns, SplitRoute, RunRoute, PaidFor;
    RateMarketServes(splits, r, total);
  }

  lemma HalvesDivideExactly()
    ensures DividesExactly(Star([0.5, 0.0], 4, 4, [2, 2], [0, 3]), 0, 2)
  {
    hide ExactAtLeg;
    var route := Star([0.5, 0.0], 4, 4, [2, 2], [0, 3]);
    HalfIsExact(0);
    HalfIsExact(1);
    forall i | 0 <= i < |route| && Affected(route, 0, i)
      ensures ExactAtLeg(route, 0, 2, i)
    {
      assert i == 0 + 1 || i == 1 + 1;
    }
  }

  lemma HalfIsExact(j: nat)
    requires j < 2
    ensures ExactAtLeg(Star([0.5, 0.0], 4, 4, [2, 2], [0, 3]), 0, 2, j + 1)
  {
    hide Share, TotalIn, Divided, SplitRoute;
    var splits, a, r := [0.5, 0.0], [2, 2], [0, 3];
    var route := Star(splits, 4, 4, a, r);
    HalvesTotal();
    Halves(2);
    assert route[0 + 1] == Branch(0, 0.5, 2, 0) && route[1 + 1] == Branch(1, 0.0, 2, 3);
    SwapKinds(splits);
    TakenIgnoresAmounts(SplitRoute(splits), route, j + 1, 1, 2);
    assert Divided(splits, 2)[j] == 1;
  }

  lemma HalvesTotal()
    ensures TotalIn(Star([0.5, 0.0], 4, 4, [2, 2], [0, 3]), 1) == 4
  {
    hide TotalIn, TotalOut, ExclusiveLegs, Star, Pay;
    StarTotals([0.5, 0.0], 4, 4, [2, 2], [0, 3]);
    assert [2, 2][..1] == [2] && [2][..0] == [] && Sum([2]) == 2;
  }
}
