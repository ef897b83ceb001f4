/**
 Replaying a route whose exclusive leg pays less: nothing changes before the leg, every swap takes its
 share of what the run collects, and when the run succeeds.
 */
module PinnedReplay {
  import opened Wrappers
  import opened Routes
  import opened RouteFlow
  import opened Shortfall
  import opened Commitment
  import opened Replay
  import opened ReplayFlow
  import opened Division

  // ---------------------------------------------------------------- running a pinned route

  /** The market in which component `id` pays the taker at most `committed`. */
  function Pinned<S>(market: Market<S>, id: ComponentId, committed: nat): Market<S> {
    Market(market.tokens, market.states,
      (c: ComponentId, s: S, amount: nat, tokenIn: Token, tokenOut: Token) =>
        PayAtMost(market.pay(c, s, amount, tokenIn, tokenOut), c == id, committed))
  }

  function PayAtMost<S>(paid: Option<Outcome<S>>, pinned: bool, committed: nat): Option<Outcome<S>> {
    if paid.Some? && pinned && committed < paid.value.amount then Some(paid.value.(amount := committed)) else paid
  }

  /** The token the route starts from. */
  function InputToken(swaps: seq<Swap>): Token
    requires |swaps| > 0
  {
    swaps[0].tokenIn
  }

  function RunRoute<S>(swaps: seq<Swap>, totalIn: nat, market: Market<S>): (r: Result<SimulatedRoute, ReplayError>)
    requires |swaps| > 0
    ensures r.Ok? ==> |r.value.swaps| == |swaps|
  {
    Simulate(swaps, InputToken(swaps), LastToken(swaps), totalIn, market)
  }

  /** The route run with its leg paying at most `legAmount`. */
  ghost function RunPinned<S>(swaps: seq<Swap>, totalIn: nat, market: Market<S>, e: nat, legAmount: nat)
    : (r: Result<SimulatedRoute, ReplayError>)
    requires e < |swaps|
    ensures r.Ok? ==> |r.value.swaps| == |swaps|
  {
    RunRoute(swaps, totalIn, Pinned(market, swaps[e].component, legAmount))
  }

  /** The swaps with the amounts that run gave them. */
  ghost function PinnedFlow<S>(swaps: seq<Swap>, totalIn: nat, market: Market<S>, e: nat, legAmount: nat)
    : (x: seq<Swap>)
    requires e < |swaps| && RunPinned(swaps, totalIn, market, e, legAmount).Ok?
    ensures |x| == |swaps|
  {
    WriteBack(swaps, RunPinned(swaps, totalIn, market, e, legAmount).value.swaps)
  }

  /** The state after the first `k` swaps of the route with its leg paying at most `legAmount`. */
  ghost function PinnedPrefix<S>(swaps: seq<Swap>, k: nat, totalIn: nat, market: Market<S>, e: nat, legAmount: nat)
    : (r: Result<Sim<S>, ReplayError>)
    requires e < |swaps| && k <= |swaps|
    ensures r.Ok? ==> |r.value.swaps| == k
  {
    Run(swaps, k, Start(InputToken(swaps), totalIn), Pinned(market, swaps[e].component, legAmount))
  }

  /** The leg's pool and every pool after it serve one swap each. */
  ghost predicate UsedOnce(swaps: seq<Swap>, e: nat) {
    forall i, j | 0 <= i < |swaps| && e <= j < |swaps| && i != j :: swaps[i].component != swaps[j].component
  }

  /** What the pool of `swap` pays for `amount` before any swap went through it. */
  ghost function PaidFor<S>(market: Market<S>, swap: Swap, amount: nat): Option<Outcome<S>>
    requires swap.component in market.states
  {
    market.pay(swap.component, market.states[swap.component], amount, swap.tokenIn, swap.tokenOut)
  }

  /** On a larger input the pool pays no less in all and, but for `r` units of rounding, no more per unit. */
  ghost predicate DiminishingReturns<S>(market: Market<S>, swap: Swap, r: nat) {
    swap.component in market.states ==>
      forall x: nat, y: nat | x <= y :: GivesLessPerUnit(market, swap, x, y, r)
  }

  ghost predicate GivesLessPerUnit<S>(market: Market<S>, swap: Swap, x: nat, y: nat, r: nat)
    requires swap.component in market.states
  {
    var small, large := PaidFor(market, swap, x), PaidFor(market, swap, y);
    small.Some? && large.Some? ==>
      small.value.amount <= large.value.amount && (small.value.amount + r) * y >= large.value.amount * x
  }

  /** A pool that serves an amount serves every smaller one. */
  ghost predicate ServesLess<S>(market: Market<S>, swap: Swap) {
    swap.component in market.states ==>
      forall x: nat, y: nat | x <= y && PaidFor(market, swap, y).Some? :: PaidFor(market, swap, x).Some?
  }

  ghost predicate ServesEvery<S>(market: Market<S>, swap: Swap) {
    swap.component in market.states ==> forall x: nat :: PaidFor(market, swap, x).Some?
  }

  // ---------------------------------------------------------------- what a whole run gives

  lemma WriteBackIsFlow<S>(swaps: seq<Swap>, st: Sim<S>)
    requires |st.swaps| == |swaps|
    ensures Flow(swaps, |swaps|, st) == WriteBack(swaps, st.swaps)
  {
    assert swaps[..|swaps|] == swaps;
  }

  /** A topologically ordered route has two ends. */
  lemma TopologicalEnds(swaps: seq<Swap>)
    requires |swaps| > 0 && Topological(swaps)
    ensures Ends(swaps, InputToken(swaps), LastToken(swaps))
  {
    forall s | s in swaps
      ensures s.tokenOut != InputToken(swaps) && s.tokenIn != LastToken(swaps)
    {
      var i :| 0 <= i < |swaps| && swaps[i] == s;
    }
  }

  /** A run takes all of its input and of every intermediate token, and delivers what its last token is paid. */
  lemma RunIsDrained<S>(swaps: seq<Swap>, totalIn: nat, market: Market<S>)
    requires |swaps| > 0 && Topological(swaps) && RemainderLast(swaps) && RunRoute(swaps, totalIn, market).Ok?
    ensures var x := RunRoute(swaps, totalIn, market).value;
            var flow := WriteBack(swaps, x.swaps);
               && Drained(flow, InputToken(swaps), LastToken(swaps))
               && TotalIn(flow, InputToken(swaps)) == totalIn
               && x.amountOut == TotalOut(flow, LastToken(swaps))
  {
    hide Run;
    var input, output := InputToken(swaps), LastToken(swaps);
    var st := Run(swaps, |swaps|, Start(input, totalIn), market).value;
    WriteBackIsFlow(swaps, st);
    var flow := WriteBack(swaps, st.swaps);
    assert TakenIn(swaps, 0, |swaps|, input);
    RunDrains(swaps, input, totalIn, market, input);
    TopologicalEnds(flow);
    TotalOutNeedsPayer(flow, input);
    BalancesConserved(swaps, |swaps|, input, totalIn, market, output);
    TotalInNeedsTaker(flow, output);
    forall t | t != input && t != output && TakenIn(flow, 0, |flow|, t)
      ensures TotalOut(flow, t) == TotalIn(flow, t)
    {
      var i :| 0 <= i < |flow| && flow[i].tokenIn == t;
      assert swaps[i].tokenIn == t;
      RunDrains(swaps, input, totalIn, market, t);
    }
  }

  /** A longer run begins with the shorter one. */
  lemma {:induction false} RunExtends<S>(
    swaps: seq<Swap>, j: nat, k: nat, input: Token, totalIn: nat, market: Market<S>)
    requires j <= k <= |swaps| && Run(swaps, k, Start(input, totalIn), market).Ok?
    ensures var a, b := Run(swaps, j, Start(input, totalIn), market), Run(swaps, k, Start(input, totalIn), market);
            a.Ok? && |a.value.swaps| == j && |b.value.swaps| == k && b.value.swaps[..j] == a.value.swaps
  {
    hide Step, Take, WriteBack;
    if j < k {
      var before, after, moved := LastStep(swaps, k, input, totalIn, market);
      RunExtends(swaps, j, k - 1, input, totalIn, market);
    }
  }

  lemma {:induction false} PoolUntouched<S>(
    swaps: seq<Swap>, sims: seq<SimulatedSwap>, k: nat, id: ComponentId, market: Market<S>)
    requires k <= |swaps| && k <= |sims| && forall i | 0 <= i < k :: swaps[i].component != id
    ensures PoolAfter(swaps, sims, k, id, market) == if id in market.states then Some(market.states[id]) else None
  {
    if k > 0 {
      PoolUntouched(swaps, sims, k - 1, id, market);
    }
  }

  /** A swap whose pool serves it alone pays what the market's pool pays for its input. */
  lemma PaidByMarketPool<S>(swaps: seq<Swap>, totalIn: nat, market: Market<S>, k: nat)
    requires k < |swaps| && RunRoute(swaps, totalIn, market).Ok?
    requires forall i | 0 <= i < k :: swaps[i].component != swaps[k].component
    ensures var x := RunRoute(swaps, totalIn, market).value;
            && swaps[k].component in market.states
            && PaidFor(market, swaps[k], x.swaps[k].amountIn).Some?
            && PaidFor(market, swaps[k], x.swaps[k].amountIn).value.amount == x.swaps[k].amountOut
  {
    hide Step, Run;
    var input := InputToken(swaps);
    RunExtends(swaps, k + 1, |swaps|, input, totalIn, market);
    var st := Run(swaps, k + 1, Start(input, totalIn), market).value;
    OverlayIsMarketAfter(swaps, k + 1, input, totalIn, market, swaps[k].component);
    PoolUntouched(swaps, st.swaps, k, swaps[k].component, market);
    var end := Run(swaps, |swaps|, Start(input, totalIn), market).value;
    assert end.swaps[k] == end.swaps[..k + 1][k] == st.swaps[k];
  }

  // ---------------------------------------------------------------- pinning changes nothing before the leg

  lemma StepWithoutLeg<S>(st: Sim<S>, swap: Swap, market: Market<S>, id: ComponentId, committed: nat)
    requires swap.component != id
    ensures Step(st, swap, Pinned(market, id, committed)) == Step(st, swap, market)
  {
    hide Take;
  }

  lemma {:induction false} SameBeforeLeg<S>(
    swaps: seq<Swap>, k: nat, st: Sim<S>, market: Market<S>, id: ComponentId, committed: nat)
    requires k <= |swaps| && forall i | 0 <= i < k :: swaps[i].component != id
    ensures Run(swaps, k, st, Pinned(market, id, committed)) == Run(swaps, k, st, market)
  {
    hide Step, Pinned;
    if k > 0 {
      SameBeforeLeg(swaps, k - 1, st, market, id, committed);
      if Run(swaps, k - 1, st, market).Ok? {
        StepWithoutLeg(Run(swaps, k - 1, st, market).value, swaps[k - 1], market, id, committed);
      }
    }
  }

  /** Before the leg every amount is as quoted; the leg takes its quoted input and pays the lesser amount. */
  lemma UpToLegPrefix<S>(swaps: seq<Swap>, totalIn: nat, market: Market<S>, e: nat, legAmount: nat)
    requires e < |swaps| && UsedOnce(swaps, e) && RunRoute(swaps, totalIn, market).Ok?
    ensures PinnedPrefix(swaps, e + 1, totalIn, market, e, legAmount).Ok?
    ensures var q := RunRoute(swaps, totalIn, market).value;
            var x := PinnedPrefix(swaps, e + 1, totalIn, market, e, legAmount).value;
            && (forall i | 0 <= i < e :: x.swaps[i] == q.swaps[i])
            && x.swaps[e].amountIn == q.swaps[e].amountIn
            && x.swaps[e].amountOut == Min(q.swaps[e].amountOut, legAmount)
  {
    hide Step, Run, Take, Pinned, WriteBack;
    var input := InputToken(swaps);
    var pinned := Pinned(market, swaps[e].component, legAmount);
    RunExtends(swaps, e + 1, |swaps|, input, totalIn, market);
    SameBeforeLeg(swaps, e, Start(input, totalIn), market, swaps[e].component, legAmount);
    var before, after, moved := LastStep(swaps, e + 1, input, totalIn, market);
    LegServed(before, swaps[e], market, legAmount);
    RunNext(swaps, e, input, totalIn, pinned);
    var before', after', moved' := LastStep(swaps, e + 1, input, totalIn, pinned);
    LegStep(before, swaps[e], market, legAmount);
    var q := Run(swaps, |swaps|, Start(input, totalIn), market).value;
    forall i | 0 <= i <= e
      ensures q.swaps[i] == after.swaps[i]
    {
      assert q.swaps[..e + 1][i] == q.swaps[i];
    }
  }

  lemma RunNext<S>(swaps: seq<Swap>, k: nat, input: Token, totalIn: nat, market: Market<S>)
    requires k < |swaps| && Run(swaps, k, Start(input, totalIn), market).Ok?
    ensures Run(swaps, k + 1, Start(input, totalIn), market)
         == Step(Run(swaps, k, Start(input, totalIn), market).value, swaps[k], market)
  {
    hide Step;
  }

  lemma UpToLeg<S>(swaps: seq<Swap>, totalIn: nat, market: Market<S>, e: nat, legAmount: nat)
    requires e < |swaps| && UsedOnce(swaps, e)
    requires RunRoute(swaps, totalIn, market).Ok? && RunPinned(swaps, totalIn, market, e, legAmount).Ok?
    ensures var q, x := RunRoute(swaps, totalIn, market).value, RunPinned(swaps, totalIn, market, e, legAmount).value;
            && (forall i | 0 <= i < e :: x.swaps[i] == q.swaps[i])
            && x.swaps[e].amountIn == q.swaps[e].amountIn
            && x.swaps[e].amountOut == Min(q.swaps[e].amountOut, legAmount)
  {
    hide Run;
    UpToLegPrefix(swaps, totalIn, market, e, legAmount);
    RunExtends(swaps, e + 1, |swaps|, InputToken(swaps), totalIn, Pinned(market, swaps[e].component, legAmount));
    var x := RunPinned(swaps, totalIn, market, e, legAmount).value;
    forall i | 0 <= i <= e
      ensures x.swaps[i] == PinnedPrefix(swaps, e + 1, totalIn, market, e, legAmount).value.swaps[i]
    {
      assert x.swaps[..e + 1][i] == x.swaps[i];
    }
  }

  lemma LegServed<S>(st: Sim<S>, leg: Swap, market: Market<S>, legAmount: nat)
    requires Step(st, leg, market).Ok?
    ensures Step(st, leg, Pinned(market, leg.component, legAmount)).Ok?
  {
    hide Take;
  }

  lemma LegStep<S>(st: Sim<S>, leg: Swap, market: Market<S>, committed: nat)
    requires Step(st, leg, market).Ok? && Step(st, leg, Pinned(market, leg.component, committed)).Ok?
    ensures var a := Step(st, leg, market).value;
            var b := Step(st, leg, Pinned(market, leg.component, committed)).value;
            && |a.swaps| == |b.swaps| == |st.swaps| + 1
            && b.swaps[|st.swaps|].amountOut == Min(a.swaps[|st.swaps|].amountOut, committed)
  {
    hide Take;
  }

  // ---------------------------------------------------------------- how a run divides its tokens

  /** Before a swap takes a token, all of it is collected. */
  lemma CollectedBeforeTaken<S>(swaps: seq<Swap>, k: nat, input: Token, totalIn: nat, market: Market<S>)
    requires k < |swaps| && PaidBeforeTaken(swaps, swaps[k].tokenIn)
    requires Run(swaps, |swaps|, Start(input, totalIn), market).Ok?
    ensures var end := Run(swaps, |swaps|, Start(input, totalIn), market).value;
            var before := Run(swaps, k, Start(input, totalIn), market);
            var t := swaps[k].tokenIn;
            && |end.swaps| == |swaps| && before.Ok? && |before.value.swaps| == k
            && Collected(swaps, k, input, totalIn, before.value, t) == Collected(swaps, |swaps|, input, totalIn, end, t)
  {
    hide Run, TotalOut;
    RunExtends(swaps, k, |swaps|, input, totalIn, market);
    var end := Run(swaps, |swaps|, Start(input, totalIn), market).value;
    WriteBackIsFlow(swaps, end);
    var flow := WriteBack(swaps, end.swaps);
    PaidBefore(flow, k);
    var before := Run(swaps, k, Start(input, totalIn), market).value;
    assert flow[..k] == Flow(swaps, k, before);
  }

  lemma RulesOfToken(swaps: seq<Swap>, i: nat)
    requires i < |swaps| && Topological(swaps) && RemainderLast(swaps)
    ensures var t := swaps[i].tokenIn;
            PaidBeforeTaken(swaps, t) && EndsInRemainder(swaps, t) && TakenIn(swaps, 0, |swaps|, t)
  {}

  /** In a whole run each swap takes its share of all that is taken of its token. */
  lemma RunDivides<S>(swaps: seq<Swap>, totalIn: nat, market: Market<S>, i: nat)
    requires i < |swaps| && Topological(swaps) && RemainderLast(swaps) && RunRoute(swaps, totalIn, market).Ok?
    ensures var flow := WriteBack(swaps, RunRoute(swaps, totalIn, market).value.swaps);
            flow[i].amountIn == Share(swaps, i, TotalIn(flow, swaps[i].tokenIn))
  {
    hide Run, Topological, RemainderLast, PaidBeforeTaken, EndsInRemainder, Share, TotalIn, TotalOut, TakenIn;
    RulesOfToken(swaps, i);
    var input := InputToken(swaps);
    TakesShare(swaps, totalIn, market, i);
    RunDrains(swaps, input, totalIn, market, swaps[i].tokenIn);
    WriteBackIsFlow(swaps, Run(swaps, |swaps|, Start(input, totalIn), market).value);
  }

  lemma TakesShare<S>(swaps: seq<Swap>, totalIn: nat, market: Market<S>, i: nat)
    requires i < |swaps| && PaidBeforeTaken(swaps, swaps[i].tokenIn) && RunRoute(swaps, totalIn, market).Ok?
    ensures var input := InputToken(swaps);
            var end := Run(swaps, |swaps|, Start(input, totalIn), market).value;
            end.swaps[i].amountIn == Share(swaps, i, Collected(swaps, |swaps|, input, totalIn, end, swaps[i].tokenIn))
  {
    hide Run, PaidBeforeTaken, Share, Collected, Step, Take, WriteBack;
    var input := InputToken(swaps);
    RunExtends(swaps, i + 1, |swaps|, input, totalIn, market);
    var before, after, moved := LastStep(swaps, i + 1, input, totalIn, market);
    var end := Run(swaps, |swaps|, Start(input, totalIn), market).value;
    assert end.swaps[i] == end.swaps[..i + 1][i] == after.swaps[i];
    TakeIsShare(swaps, i, input, totalIn, market);
    CollectedBeforeTaken(swaps, i, input, totalIn, market);
  }

  /** What the same pool pays for the inputs of the two runs. */
  lemma LaterSwapPays<S>(swaps: seq<Swap>, totalIn: nat, market: Market<S>, e: nat, legAmount: nat, i: nat)
    requires e < i < |swaps| && UsedOnce(swaps, e)
    requires RunRoute(swaps, totalIn, market).Ok? && RunPinned(swaps, totalIn, market, e, legAmount).Ok?
    ensures var q := RunRoute(swaps, totalIn, market).value;
            var x := RunPinned(swaps, totalIn, market, e, legAmount).value;
            && swaps[i].component in market.states
            && var quoted := PaidFor(market, swaps[i], q.swaps[i].amountIn);
               var run := PaidFor(market, swaps[i], x.swaps[i].amountIn);
               && quoted.Some? && quoted.value.amount == q.swaps[i].amountOut
               && run.Some? && run.value.amount == x.swaps[i].amountOut
  {
    hide RunRoute;
    PaidByMarketPool(swaps, totalIn, market, i);
    PaidByMarketPool(swaps, totalIn, Pinned(market, swaps[e].component, legAmount), i);
  }

  // ---------------------------------------------------------------- when the pinned run succeeds

  lemma LaterServed<S>(st: Sim<S>, before: Sim<S>, swap: Swap, market: Market<S>, id: ComponentId, legAmount: nat)
    requires Step(before, swap, market).Ok? && swap.component != id && swap.component in market.states
    requires PoolState(st.postSwap, market, swap.component) == Some(market.states[swap.component])
    requires PaidFor(market, swap, Take(st, swap)).Some?
    ensures Step(st, swap, Pinned(market, id, legAmount)).Ok?
  {
    hide Take;
  }

  /** The pinned run goes on for one more swap if the leg is still to come or the pool serves what the swap takes. */
  lemma PinnedStepSucceeds<S>(swaps: seq<Swap>, k: nat, totalIn: nat, market: Market<S>, e: nat, legAmount: nat)
    requires e < |swaps| && k < |swaps| && UsedOnce(swaps, e) && RunRoute(swaps, totalIn, market).Ok?
    requires PinnedPrefix(swaps, k, totalIn, market, e, legAmount).Ok?
    requires k > e ==>
               && swaps[k].component in market.states
               && PaidFor(market, swaps[k],
                          Take(PinnedPrefix(swaps, k, totalIn, market, e, legAmount).value, swaps[k])).Some?
    ensures PinnedPrefix(swaps, k + 1, totalIn, market, e, legAmount).Ok?
  {
    hide Step, Take, Pinned, PaidFor, WriteBack;
    var input, pinned := InputToken(swaps), Pinned(market, swaps[e].component, legAmount);
    RunExtends(swaps, k + 1, |swaps|, input, totalIn, market);
    if k < e {
      SameBeforeLeg(swaps, k + 1, Start(input, totalIn), market, swaps[e].component, legAmount);
    } else {
      var before, after, moved := LastStep(swaps, k + 1, input, totalIn, market);
      if k == e {
        SameBeforeLeg(swaps, e, Start(input, totalIn), market, swaps[e].component, legAmount);
        LegServed(before, swaps[e], market, legAmount);
      } else {
        var st := PinnedPrefix(swaps, k, totalIn, market, e, legAmount).value;
        PinnedPoolUntouched(swaps, k, totalIn, market, e, legAmount);
        LaterServed(st, before, swaps[k], market, swaps[e].component, legAmount);
      }
    }
  }

  lemma PinnedPoolUntouched<S>(swaps: seq<Swap>, k: nat, totalIn: nat, market: Market<S>, e: nat, legAmount: nat)
    requires e < k < |swaps| && UsedOnce(swaps, e) && PinnedPrefix(swaps, k, totalIn, market, e, legAmount).Ok?
    requires swaps[k].component in market.states
    ensures var st := PinnedPrefix(swaps, k, totalIn, market, e, legAmount).value;
            PoolState(st.postSwap, market, swaps[k].component) == Some(market.states[swaps[k].component])
  {
    hide Step, Run;
    var input, pinned := InputToken(swaps), Pinned(market, swaps[e].component, legAmount);
    OverlayIsMarketAfter(swaps, k, input, totalIn, pinned, swaps[k].component);
    PoolUntouched(swaps, PinnedPrefix(swaps, k, totalIn, market, e, legAmount).value.swaps, k, swaps[k].component,
                  pinned);
  }

  lemma {:induction false} ServedRunSucceeds<S>(
    swaps: seq<Swap>, k: nat, totalIn: nat, market: Market<S>, e: nat, legAmount: nat)
    requires e < |swaps| && k <= |swaps| && UsedOnce(swaps, e) && RunRoute(swaps, totalIn, market).Ok?
    requires forall i | e < i < |swaps| :: ServesEvery(market, swaps[i])
    ensures PinnedPrefix(swaps, k, totalIn, market, e, legAmount).Ok?
  {
    hide UsedOnce, Take, RunRoute, PaidFor;
    if k > 0 {
      hide PinnedPrefix;
      ServedRunSucceeds(swaps, k - 1, totalIn, market, e, legAmount);
      if k - 1 > e {
        LaterPoolPays(swaps, totalIn, market, e, k - 1);
        assert ServesEvery(market, swaps[k - 1]);
      }
      PinnedStepSucceeds(swaps, k - 1, totalIn, market, e, legAmount);
    }
  }

  lemma LaterPoolPays<S>(swaps: seq<Swap>, totalIn: nat, market: Market<S>, e: nat, i: nat)
    requires e < i < |swaps| && UsedOnce(swaps, e) && RunRoute(swaps, totalIn, market).Ok?
    ensures swaps[i].component in market.states
    ensures var sim := RunRoute(swaps, totalIn, market).value.swaps[i];
            && PaidFor(market, swaps[i], sim.amountIn).Some?
            && PaidFor(market, swaps[i], sim.amountIn).value.amount == sim.amountOut
  {
    hide RunRoute;
    PaidByMarketPool(swaps, totalIn, market, i);
  }

  lemma PinnedStepAmounts<S>(swaps: seq<Swap>, k: nat, totalIn: nat, market: Market<S>, e: nat, legAmount: nat)
    requires e < k < |swaps| && UsedOnce(swaps, e) && swaps[k].component in market.states
    requires PinnedPrefix(swaps, k + 1, totalIn, market, e, legAmount).Ok?
    ensures PinnedPrefix(swaps, k, totalIn, market, e, legAmount).Ok?
    ensures var st := PinnedPrefix(swaps, k, totalIn, market, e, legAmount).value;
            var after := PinnedPrefix(swaps, k + 1, totalIn, market, e, legAmount).value;
            && after.swaps == st.swaps + [after.swaps[k]] && after.swaps[k].amountIn == Take(st, swaps[k])
            && PaidFor(market, swaps[k], after.swaps[k].amountIn).Some?
            && PaidFor(market, swaps[k], after.swaps[k].amountIn).value.amount == after.swaps[k].amountOut
  {
    hide Step, Take, WriteBack, Run;
    var input, pinned := InputToken(swaps), Pinned(market, swaps[e].component, legAmount);
    var before, after, moved := LastStep(swaps, k + 1, input, totalIn, pinned);
    OverlayIsMarketAfter(swaps, k + 1, input, totalIn, pinned, swaps[k].component);
    PoolUntouched(swaps, after.swaps, k, swaps[k].component, pinned);
  }

  lemma PinnedRunSucceeds<S>(swaps: seq<Swap>, totalIn: nat, market: Market<S>, e: nat, legAmount: nat)
    requires e < |swaps| && UsedOnce(swaps, e) && RunRoute(swaps, totalIn, market).Ok?
    requires forall i | e < i < |swaps| :: ServesEvery(market, swaps[i])
    ensures RunPinned(swaps, totalIn, market, e, legAmount).Ok?
  {
    hide UsedOnce, ServesEvery, Run;
    ServedRunSucceeds(swaps, |swaps|, totalIn, market, e, legAmount);
  }
}
