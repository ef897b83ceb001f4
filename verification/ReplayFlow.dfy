/**
 What every replay keeps: balances are conserved at each step, a token's snapshot is all that is
 ever collected of it, every token that is taken drains, and each pool sees exactly the swaps that
 went through it before.
 */
module ReplayFlow {
  import opened Wrappers
  import opened Routes
  import opened Replay

  /** What the run starts with of `t`. */
  function Initial(input: Token, totalIn: nat, t: Token): nat {
    if t == input then totalIn else 0
  }

  /** The first `k` swaps with the amounts they moved. */
  function Flow<S>(swaps: seq<Swap>, k: nat, st: Sim<S>): seq<Swap>
    requires k <= |swaps| && |st.swaps| == k
  {
    WriteBack(swaps[..k], st.swaps)
  }

  function GasTotal(sims: seq<SimulatedSwap>): nat {
    if |sims| == 0 then 0 else GasTotal(sims[..|sims| - 1]) + sims[|sims| - 1].gas
  }

  /** The state before swap `k - 1`, what it took and paid, and the flow it adds to. */
  lemma LastStep<S>(swaps: seq<Swap>, k: nat, input: Token, totalIn: nat, market: Market<S>)
    returns (before: Sim<S>, after: Sim<S>, moved: Swap)
    requires 0 < k <= |swaps| && Run(swaps, k, Start(input, totalIn), market).Ok?
    ensures Run(swaps, k - 1, Start(input, totalIn), market) == Ok(before) && |before.swaps| == k - 1
    ensures Run(swaps, k, Start(input, totalIn), market) == Ok(after) && |after.swaps| == k
    ensures Step(before, swaps[k - 1], market) == Ok(after)
    ensures moved == swaps[k - 1].(amountIn := after.swaps[k - 1].amountIn, amountOut := after.swaps[k - 1].amountOut)
    ensures moved.amountIn == Take(before, swaps[k - 1])
    ensures after.swaps == before.swaps + [after.swaps[k - 1]]
    ensures Flow(swaps, k, after) == Flow(swaps, k - 1, before) + [moved]
  {
    hide Take;
    before := Run(swaps, k - 1, Start(input, totalIn), market).value;
    after := Run(swaps, k, Start(input, totalIn), market).value;
    moved := swaps[k - 1].(amountIn := after.swaps[k - 1].amountIn, amountOut := after.swaps[k - 1].amountOut);
  }

  /** What one step does to the balance of `t`. */
  lemma StepMoves<S>(st: Sim<S>, swap: Swap, market: Market<S>, t: Token)
    requires Step(st, swap, market).Ok?
    ensures var after := Step(st, swap, market).value;
            && |after.swaps| == |st.swaps| + 1
            && var sim := after.swaps[|st.swaps|];
               && sim.amountIn == Take(st, swap)
               && after.gas == st.gas + sim.gas
               && Balance(after.available, t) + (if swap.tokenIn == t then sim.amountIn else 0)
                  == Balance(st.available, t) + (if swap.tokenOut == t then sim.amountOut else 0)
  {
    hide Take;
  }

  lemma TakesAllThatRemains<S>(st: Sim<S>, swap: Swap)
    requires swap.split <= 0.0
    ensures Take(st, swap) == Balance(st.available, swap.tokenIn)
  {}

  lemma TotalsAppend(flow: seq<Swap>, s: Swap, t: Token)
    ensures TotalIn(flow + [s], t) == TotalIn(flow, t) + if s.tokenIn == t then s.amountIn else 0
    ensures TotalOut(flow + [s], t) == TotalOut(flow, t) + if s.tokenOut == t then s.amountOut else 0
  {
    assert (flow + [s])[..|flow|] == flow;
  }

  /**
   At every step and for every token, what the run started with and all that was paid equals all
   that was taken and the balance held; the gas is the sum over the swaps.
   */
  lemma {:induction false} BalancesConserved<S>(
    swaps: seq<Swap>, k: nat, input: Token, totalIn: nat, market: Market<S>, t: Token)
    requires k <= |swaps| && Run(swaps, k, Start(input, totalIn), market).Ok?
    ensures var st := Run(swaps, k, Start(input, totalIn), market).value;
            && |st.swaps| == k
            && Initial(input, totalIn, t) + TotalOut(Flow(swaps, k, st), t)
               == TotalIn(Flow(swaps, k, st), t) + Balance(st.available, t)
            && st.gas == GasTotal(st.swaps)
  {
    hide Take, Step, WriteBack, Balance;
    if k == 0 {
      NothingMoved<S>(swaps, input, totalIn, t);
    } else {
      var before, after, moved := LastStep(swaps, k, input, totalIn, market);
      BalancesConserved(swaps, k - 1, input, totalIn, market, t);
      TotalsAppend(Flow(swaps, k - 1, before), moved, t);
      StepMoves(before, swaps[k - 1], market, t);
      assert after.swaps[..k - 1] == before.swaps;
    }
  }

  lemma NothingMoved<S>(swaps: seq<Swap>, input: Token, totalIn: nat, t: Token)
    ensures var st := Start<S>(input, totalIn);
            && TotalIn(Flow(swaps, 0, st), t) == TotalOut(Flow(swaps, 0, st), t) == 0
            && Balance(st.available, t) == Initial(input, totalIn, t)
  {}

  /** A simulation reports what is left of its output token and the gas of its swaps. */
  lemma {:induction false} SimulateReports<S>(
    swaps: seq<Swap>, input: Token, output: Token, totalIn: nat, market: Market<S>)
    requires Simulate(swaps, input, output, totalIn, market).Ok?
    ensures var x := Simulate(swaps, input, output, totalIn, market).value;
            var flow := WriteBack(swaps, x.swaps);
            && Initial(input, totalIn, output) + TotalOut(flow, output) == TotalIn(flow, output) + x.amountOut
            && x.gas == GasTotal(x.swaps)
  {
    hide Run, WriteBack;
    BalancesConserved(swaps, |swaps|, input, totalIn, market, output);
    assert swaps[..|swaps|] == swaps;
  }

  /**
   A replay starts from all that the route takes of its first token and reports what is left of its
   last token: all that is paid of it, where it is another token that nothing takes.
   */
  lemma {:induction false} ReplayReports<S>(swaps: seq<Swap>, market: Market<S>)
    requires ReplayRoute(swaps, market).Ok?
    ensures |swaps| > 0
    ensures var x := ReplayRoute(swaps, market).value;
            var input, output := swaps[0].tokenIn, swaps[|swaps| - 1].tokenOut;
            && |x.swaps| == |swaps|
            && var flow := WriteBack(swaps, x.swaps);
               && Initial(input, TotalIn(swaps, input), output) + TotalOut(flow, output)
                  == TotalIn(flow, output) + x.amountOut
               && x.gas == GasTotal(x.swaps)
               && (input != output && !TakenIn(swaps, 0, |swaps|, output) ==> x.amountOut == TotalOut(flow, output))
  {
    hide Simulate;
    var input, output := swaps[0].tokenIn, swaps[|swaps| - 1].tokenOut;
    SimulateReports(swaps, input, output, TotalIn(swaps, input), market);
    if !TakenIn(swaps, 0, |swaps|, output) {
      TotalInNeedsTaker(WriteBack(swaps, ReplayRoute(swaps, market).value.swaps), output);
    }
  }

  // ---------------------------------------------------------------- snapshots and draining

  ghost predicate TakenIn(swaps: seq<Swap>, i: nat, j: nat, t: Token)
    requires j <= |swaps|
  {
    exists k :: i <= k < j && swaps[k].tokenIn == t
  }

  /** Exactly the tokens taken so far have a snapshot, and it is all that will ever be collected. */
  lemma {:induction false} SnapshotsComplete<S>(
    swaps: seq<Swap>, k: nat, input: Token, totalIn: nat, market: Market<S>, t: Token)
    requires PaidBeforeTaken(swaps, t)
    requires k <= |swaps| && Run(swaps, k, Start(input, totalIn), market).Ok?
    ensures var st := Run(swaps, k, Start(input, totalIn), market).value;
            && |st.swaps| == k
            && (t in st.branchTotals <==> TakenIn(swaps, 0, k, t))
            && (t in st.branchTotals ==>
                  st.branchTotals[t] == Initial(input, totalIn, t) + TotalOut(Flow(swaps, k, st), t))
  {
    hide Take, Step, WriteBack;
    if k > 0 {
      var before, after, moved := LastStep(swaps, k, input, totalIn, market);
      StepSnapshots(before, swaps[k - 1], market);
      SnapshotsComplete(swaps, k - 1, input, totalIn, market, t);
      TotalsAppend(Flow(swaps, k - 1, before), moved, t);
      if swaps[k - 1].tokenIn == t {
        assert swaps[k - 1].tokenOut != swaps[k - 1].tokenIn;
        assert TakenIn(swaps, 0, k, t);
        if t !in before.branchTotals {
          FirstTaken(swaps, k - 1, input, totalIn, market, t);
        }
      } else if TakenIn(swaps, 0, k, t) {
        var j :| 0 <= j < k && swaps[j].tokenIn == t;
        assert swaps[k - 1].tokenOut != swaps[j].tokenIn;
        assert TakenIn(swaps, 0, k - 1, t);
      }
    }
  }

  lemma StepSnapshots<S>(st: Sim<S>, swap: Swap, market: Market<S>)
    requires Step(st, swap, market).Ok?
    ensures Step(st, swap, market).value.branchTotals == st.branchTotals[swap.tokenIn := BranchTotal(st, swap.tokenIn)]
  {
    hide Take;
  }

  /** Before it is first taken, a token's balance is all that was collected of it. */
  lemma FirstTaken<S>(swaps: seq<Swap>, k: nat, input: Token, totalIn: nat, market: Market<S>, t: Token)
    requires k <= |swaps| && Run(swaps, k, Start(input, totalIn), market).Ok?
    requires !TakenIn(swaps, 0, k, t)
    ensures var st := Run(swaps, k, Start(input, totalIn), market).value;
            Balance(st.available, t) == Initial(input, totalIn, t) + TotalOut(Flow(swaps, k, st), t)
  {
    hide Step;
    BalancesConserved(swaps, k, input, totalIn, market, t);
    TotalInNeedsTaker(Flow(swaps, k, Run(swaps, k, Start(input, totalIn), market).value), t);
  }

  /** The last swap to take a token takes what remains. */
  ghost predicate RemainderLast(swaps: seq<Swap>) {
    forall i | 0 <= i < |swaps| :: RemainderIfLast(swaps, i)
  }

  ghost predicate RemainderIfLast(swaps: seq<Swap>, i: nat)
    requires i < |swaps|
  {
    TakenIn(swaps, i + 1, |swaps|, swaps[i].tokenIn) || swaps[i].split <= 0.0
  }

  /** The last swap to take `t` takes what remains. */
  ghost predicate EndsInRemainder(swaps: seq<Swap>, t: Token) {
    forall i | 0 <= i < |swaps| && swaps[i].tokenIn == t :: RemainderIfLast(swaps, i)
  }

  /** Once nothing more takes it, a token that was taken is at zero. */
  lemma {:induction false} TakenDrains<S>(
    swaps: seq<Swap>, k: nat, input: Token, totalIn: nat, market: Market<S>, t: Token)
    requires PaidBeforeTaken(swaps, t) && EndsInRemainder(swaps, t)
    requires k <= |swaps| && Run(swaps, k, Start(input, totalIn), market).Ok?
    requires TakenIn(swaps, 0, k, t) && !TakenIn(swaps, k, |swaps|, t)
    ensures Balance(Run(swaps, k, Start(input, totalIn), market).value.available, t) == 0
  {
    hide Take, Step, Run, WriteBack, Balance;
    var before, after, moved := LastStep(swaps, k, input, totalIn, market);
    StepMoves(before, swaps[k - 1], market, t);
    var j :| 0 <= j < k && swaps[j].tokenIn == t;
    assert swaps[k - 1].tokenOut != t;
    if swaps[k - 1].tokenIn == t {
      assert RemainderIfLast(swaps, k - 1);
      TakesAllThatRemains(before, swaps[k - 1]);
    } else {
      assert TakenIn(swaps, 0, k - 1, t);
      TakenDrains(swaps, k - 1, input, totalIn, market, t);
    }
  }

  /** A token that is paid before it is taken, by a group that ends in a remainder, is taken in full. */
  lemma RunDrains<S>(swaps: seq<Swap>, input: Token, totalIn: nat, market: Market<S>, t: Token)
    requires PaidBeforeTaken(swaps, t) && EndsInRemainder(swaps, t)
    requires Run(swaps, |swaps|, Start(input, totalIn), market).Ok?
    requires TakenIn(swaps, 0, |swaps|, t)
    ensures var st := Run(swaps, |swaps|, Start(input, totalIn), market).value;
            && |st.swaps| == |swaps|
            && Balance(st.available, t) == 0
            && st.branchTotals.Keys >= {t}
            && TotalIn(Flow(swaps, |swaps|, st), t) == st.branchTotals[t]
            && TotalIn(Flow(swaps, |swaps|, st), t)
               == Initial(input, totalIn, t) + TotalOut(Flow(swaps, |swaps|, st), t)
  {
    BalancesConserved(swaps, |swaps|, input, totalIn, market, t);
    SnapshotsComplete(swaps, |swaps|, input, totalIn, market, t);
    TakenDrains(swaps, |swaps|, input, totalIn, market, t);
  }

  /** If every token paid is the output or taken on, nothing is left behind but the output. */
  lemma AllFlowReachesOutput<S>(
    swaps: seq<Swap>, input: Token, output: Token, totalIn: nat, market: Market<S>, t: Token)
    requires (forall u | u != output :: PaidBeforeTaken(swaps, u)) && RemainderLast(swaps)
    requires TakenIn(swaps, 0, |swaps|, input)
    requires forall s | s in swaps :: s.tokenOut == output || TakenIn(swaps, 0, |swaps|, s.tokenOut)
    requires Run(swaps, |swaps|, Start(input, totalIn), market).Ok? && t != output
    ensures Balance(Run(swaps, |swaps|, Start(input, totalIn), market).value.available, t) == 0
  {
    hide Run, PaidBeforeTaken, Balance;
    if TakenIn(swaps, 0, |swaps|, t) {
      RunDrains(swaps, input, totalIn, market, t);
    } else {
      BalancesConserved(swaps, |swaps|, input, totalIn, market, t);
      var flow := Flow(swaps, |swaps|, Run(swaps, |swaps|, Start(input, totalIn), market).value);
      forall s | s in flow
        ensures s.tokenOut != t
      {
        var i :| 0 <= i < |flow| && flow[i] == s;
        assert swaps[i] in swaps;
      }
      TotalOutNeedsPayer(flow, t);
    }
  }

  // ---------------------------------------------------------------- pool states

  /** The state of pool `id` after only the swaps among the first `k` that go through it. */
  ghost function PoolAfter<S>(
    swaps: seq<Swap>, sims: seq<SimulatedSwap>, k: nat, id: ComponentId, market: Market<S>): Option<S>
    requires k <= |swaps| && k <= |sims|
  {
    if k == 0 then (if id in market.states then Some(market.states[id]) else None)
    else
      var before := PoolAfter(swaps, sims, k - 1, id, market);
      var swap := swaps[k - 1];
      if swap.component != id || before.None? then before
      else
        var result := market.pay(id, before.value, sims[k - 1].amountIn, swap.tokenIn, swap.tokenOut);
        if result.Some? then Some(result.value.next) else None
  }

  /**
   The overlay of post-swap states stands for a market that every swap updates: each pool is where
   the swaps through it left it, and each swap pays what its pool pays there.
   */
  lemma {:induction false} OverlayIsMarketAfter<S>(
    swaps: seq<Swap>, k: nat, input: Token, totalIn: nat, market: Market<S>, id: ComponentId)
    requires k <= |swaps| && Run(swaps, k, Start(input, totalIn), market).Ok?
    ensures var st := Run(swaps, k, Start(input, totalIn), market).value;
            && |st.swaps| == k
            && PoolState(st.postSwap, market, id) == PoolAfter(swaps, st.swaps, k, id, market)
    ensures k > 0 ==>
              var st := Run(swaps, k, Start(input, totalIn), market).value;
              var swap, sim := swaps[k - 1], st.swaps[k - 1];
              var pool := PoolAfter(swaps, st.swaps, k - 1, swap.component, market);
              && pool.Some?
              && var paid := market.pay(swap.component, pool.value, sim.amountIn, swap.tokenIn, swap.tokenOut);
                 paid.Some? && paid.value.amount == sim.amountOut && paid.value.gas == sim.gas
  {
    hide Take;
    if k > 0 {
      var before, after, moved := LastStep(swaps, k, input, totalIn, market);
      OverlayIsMarketAfter(swaps, k - 1, input, totalIn, market, id);
      OverlayIsMarketAfter(swaps, k - 1, input, totalIn, market, swaps[k - 1].component);
      PoolAfterPrefix(swaps, before.swaps, after.swaps, k - 1, id, market);
      PoolAfterPrefix(swaps, before.swaps, after.swaps, k - 1, swaps[k - 1].component, market);
    }
  }

  /** What the error of the swap that failed means: the first of its checks that it failed. */
  ghost predicate FailsWith<S>(market: Market<S>, swap: Swap, pool: Option<S>, amountIn: nat, error: ReplayError) {
    var known := swap.tokenIn in market.tokens && swap.tokenOut in market.tokens;
    match error
    case EmptyRoute => false
    case MissingToken(t) =>
      t !in market.tokens && (t == swap.tokenIn || (swap.tokenIn in market.tokens && t == swap.tokenOut))
    case MissingState(id) => known && id == swap.component && id !in market.states
    case Simulation(id) =>
      && known && id == swap.component && pool.Some?
      && market.pay(id, pool.value, amountIn, swap.tokenIn, swap.tokenOut).None?
  }

  /** A run that fails fails at one swap, after all swaps before it ran, with the error of that swap. */
  lemma {:induction false} FailureIsFirstFailure<S>(
    swaps: seq<Swap>, k: nat, input: Token, totalIn: nat, market: Market<S>)
    returns (i: nat)
    requires k <= |swaps| && Run(swaps, k, Start(input, totalIn), market).Err?
    ensures i < k && Run(swaps, i, Start(input, totalIn), market).Ok?
    ensures var st := Run(swaps, i, Start(input, totalIn), market).value;
            FailsWith(market, swaps[i], PoolAfter(swaps, st.swaps, i, swaps[i].component, market), Take(st, swaps[i]),
                      Run(swaps, k, Start(input, totalIn), market).error)
  {
    hide Take, Step, FailsWith;
    if Run(swaps, k - 1, Start(input, totalIn), market).Err? {
      i := FailureIsFirstFailure(swaps, k - 1, input, totalIn, market);
    } else {
      i := k - 1;
      var st := Run(swaps, i, Start(input, totalIn), market).value;
      OverlayIsMarketAfter(swaps, i, input, totalIn, market, swaps[i].component);
      StepFailsWith(st, swaps[i], market);
    }
  }

  lemma StepFailsWith<S>(st: Sim<S>, swap: Swap, market: Market<S>)
    requires Step(st, swap, market).Err?
    ensures FailsWith(market, swap, PoolState(st.postSwap, market, swap.component), Take(st, swap),
                      Step(st, swap, market).error)
  {
    hide Take;
  }

  /** A replay fails as empty exactly on the empty route, and otherwise at one swap with that swap's error. */
  lemma {:induction false} ReplayFailure<S>(swaps: seq<Swap>, market: Market<S>) returns (i: nat)
    requires ReplayRoute(swaps, market).Err?
    ensures ReplayRoute(swaps, market).error == EmptyRoute <==> |swaps| == 0
    ensures |swaps| > 0 ==>
              var start := Start<S>(swaps[0].tokenIn, TotalIn(swaps, swaps[0].tokenIn));
              && i < |swaps| && Run(swaps, i, start, market).Ok?
              && var st := Run(swaps, i, start, market).value;
                 FailsWith(market, swaps[i], PoolAfter(swaps, st.swaps, i, swaps[i].component, market),
                           Take(st, swaps[i]), ReplayRoute(swaps, market).error)
  {
    hide Run, Take, PoolAfter, TotalIn;
    i := 0;
    if |swaps| > 0 {
      i := FailureIsFirstFailure(swaps, |swaps|, swaps[0].tokenIn, TotalIn(swaps, swaps[0].tokenIn), market);
    }
  }

  lemma {:induction false} PoolAfterPrefix<S>(
    swaps: seq<Swap>, a: seq<SimulatedSwap>, b: seq<SimulatedSwap>, k: nat, id: ComponentId, market: Market<S>)
    requires k <= |swaps| && k <= |a| && a <= b
    ensures PoolAfter(swaps, a, k, id, market) == PoolAfter(swaps, b, k, id, market)
  {
    if k > 0 {
      PoolAfterPrefix(swaps, a, b, k - 1, id, market);
    }
  }
}
