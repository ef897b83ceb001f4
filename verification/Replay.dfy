/**
 Running the swaps of a route in order against a market: balances per token, the snapshot a token's
 splits are fractions of, and the pool states earlier swaps left behind.
 */
module Replay {
  import opened Wrappers
  import opened Routes

  // ---------------------------------------------------------------- splitting an amount

  /** Fixed-point scale of a split: 18 decimal digits. */
  const SPLIT_SCALE: nat := 1_000_000_000_000_000_000

  /** The split clamped to [0, 1], in units of the scale, rounded down. */
  function SplitNumerator(fraction: real): (n: nat)
    ensures n <= SPLIT_SCALE
  {
    var clamped := if fraction < 0.0 then 0.0 else if fraction > 1.0 then 1.0 else fraction;
    (clamped * SPLIT_SCALE as real).Floor
  }

  /** The part of `total` that a split takes; never more than all of it. */
  function SplitAmount(total: nat, fraction: real): (part: nat)
    ensures part <= total
  {
    PartBounds(total, SplitNumerator(fraction), SPLIT_SCALE);
    total * SplitNumerator(fraction) / SPLIT_SCALE
  }

  /** A split in [0, 1] takes at most its fraction, and less by no more than rounding at the scale. */
  lemma SplitAmountIsFloor(total: nat, fraction: real)
    requires 0.0 <= fraction <= 1.0
    ensures var part, scale := SplitAmount(total, fraction) as real, 1_000_000_000_000_000_000.0;
            part <= total as real * fraction && (part + 1.0) * scale > total as real * (fraction * scale - 1.0)
  {
    var n, scale, part := SplitNumerator(fraction), SPLIT_SCALE as real, SplitAmount(total, fraction);
    assert n as real <= fraction * scale < n as real + 1.0;
    FloorBounds(total, n, SPLIT_SCALE);
    UpperBound(total as real, n as real, scale, fraction, part as real);
    LowerBound(total as real, n as real, fraction * scale - 1.0, (part as real + 1.0) * scale);
  }

  /** A split outside [0, 1] takes nothing or everything. */
  lemma SplitAmountClamps(total: nat, fraction: real)
    ensures fraction <= 0.0 ==> SplitAmount(total, fraction) == 0
    ensures fraction >= 1.0 ==> SplitAmount(total, fraction) == total
  {
    FloorBounds(total, SplitNumerator(fraction), SPLIT_SCALE);
  }

  lemma FloorBounds(total: nat, n: nat, scale: nat)
    requires scale > 0
    ensures total * n / scale * scale <= total * n < (total * n / scale + 1) * scale
    ensures (total * n) as real == total as real * n as real
  {}

  lemma UpperBound(total: real, n: real, scale: real, fraction: real, part: real)
    requires total >= 0.0 && scale > 0.0 && n <= fraction * scale && part * scale <= total * n
    ensures part <= total * fraction
  {
    assert total * n <= total * (fraction * scale);
    assert total * (fraction * scale) == total * fraction * scale;
    assert (total * fraction - part) * scale >= 0.0;
  }

  lemma LowerBound(total: real, n: real, x: real, y: real)
    requires total >= 0.0 && x < n && total * n < y
    ensures total * x < y
  {
    assert total * (n - x) >= 0.0;
  }

  lemma PartBounds(total: nat, n: nat, scale: nat)
    requires scale > 0 && n <= scale
    ensures total * n / scale <= total && total * n / scale * scale <= total * n
  {
    var part := total * n / scale;
    assert total * n <= total * scale;
    assert part * scale <= total * n;
    assert (part - total) * scale <= 0;
  }

  // ---------------------------------------------------------------- the market

  datatype Outcome<+S> = Outcome(amount: nat, gas: nat, next: S)

  /**
   The market: the tokens it knows, each pool's state, and what a pool pays, at what gas, and the
   state it is left in, or nothing if its simulation fails.
   */
  datatype Market<!S> = Market(
    tokens: set<Token>,
    states: map<ComponentId, S>,
    pay: (ComponentId, S, nat, Token, Token) -> Option<Outcome<S>>)

  datatype ReplayError =
    | EmptyRoute
    | MissingState(id: ComponentId)
    | MissingToken(token: Token)
    | Simulation(id: ComponentId)

  datatype SimulatedSwap = SimulatedSwap(amountIn: nat, amountOut: nat, gas: nat)

  datatype SimulatedRoute = SimulatedRoute(swaps: seq<SimulatedSwap>, amountOut: nat, gas: nat)

  // ---------------------------------------------------------------- one step

  /** What the loop carries from swap to swap. */
  datatype Sim<+S> = Sim(
    available: map<Token, nat>,
    branchTotals: map<Token, nat>,
    postSwap: map<ComponentId, S>,
    gas: nat,
    swaps: seq<SimulatedSwap>)

  function Balance(amounts: map<Token, nat>, t: Token): nat {
    if t in amounts then amounts[t] else 0
  }

  /** The total the splits of `t` are fractions of: its snapshot, or its balance if none was taken. */
  function BranchTotal<S>(st: Sim<S>, t: Token): nat {
    if t in st.branchTotals then st.branchTotals[t] else Balance(st.available, t)
  }

  function Take<S>(st: Sim<S>, swap: Swap): (amount: nat)
    ensures amount <= Balance(st.available, swap.tokenIn)
  {
    var remaining := Balance(st.available, swap.tokenIn);
    if swap.split > 0.0 then
      var part := SplitAmount(BranchTotal(st, swap.tokenIn), swap.split);
      if part < remaining then part else remaining
    else remaining
  }

  function PoolState<S>(postSwap: map<ComponentId, S>, market: Market<S>, id: ComponentId): Option<S> {
    if id in postSwap then Some(postSwap[id])
    else if id in market.states then Some(market.states[id])
    else None
  }

  function Step<S>(st: Sim<S>, swap: Swap, market: Market<S>): Result<Sim<S>, ReplayError> {
    if swap.tokenIn !in market.tokens then Err(MissingToken(swap.tokenIn))
    else if swap.tokenOut !in market.tokens then Err(MissingToken(swap.tokenOut))
    else
      var pool := PoolState(st.postSwap, market, swap.component);
      if pool.None? then Err(MissingState(swap.component))
      else
        var result := market.pay(swap.component, pool.value, Take(st, swap), swap.tokenIn, swap.tokenOut);
        if result.None? then Err(Simulation(swap.component))
        else Ok(Settle(st, swap, Take(st, swap), result.value))
  }

  /** Takes from one balance and adds to another. */
  function Move(amounts: map<Token, nat>, from: Token, taken: nat, to: Token, paid: nat): map<Token, nat>
    requires taken <= Balance(amounts, from)
  {
    var left := amounts[from := Balance(amounts, from) - taken];
    left[to := Balance(left, to) + paid]
  }

  /** Books one swap that took `amountIn`. */
  function Settle<S>(st: Sim<S>, swap: Swap, amountIn: nat, result: Outcome<S>): Sim<S>
    requires amountIn <= Balance(st.available, swap.tokenIn)
  {
    Sim(
      Move(st.available, swap.tokenIn, amountIn, swap.tokenOut, result.amount),
      st.branchTotals[swap.tokenIn := BranchTotal(st, swap.tokenIn)],
      st.postSwap[swap.component := result.next],
      st.gas + result.gas,
      st.swaps + [SimulatedSwap(amountIn, result.amount, result.gas)])
  }

  // ---------------------------------------------------------------- the run

  function Start<S>(input: Token, totalIn: nat): Sim<S> {
    Sim(map[input := totalIn], map[], map[], 0, [])
  }

  /** The state after the first `k` swaps. */
  function Run<S>(swaps: seq<Swap>, k: nat, st: Sim<S>, market: Market<S>): (r: Result<Sim<S>, ReplayError>)
    requires k <= |swaps|
    ensures r.Ok? ==> |r.value.swaps| == |st.swaps| + k
  {
    if k == 0 then Ok(st)
    else
      var before := Run(swaps, k - 1, st, market);
      if before.Err? then before else Step(before.value, swaps[k - 1], market)
  }

  function Simulate<S>(swaps: seq<Swap>, input: Token, output: Token, totalIn: nat, market: Market<S>)
    : (r: Result<SimulatedRoute, ReplayError>)
    ensures r.Ok? ==> |r.value.swaps| == |swaps|
  {
    var end := Run(swaps, |swaps|, Start(input, totalIn), market);
    if end.Err? then Err(end.error)
    else Ok(SimulatedRoute(end.value.swaps, Balance(end.value.available, output), end.value.gas))
  }

  /** One turn of the loop, on its three maps. */
  method RunSwap<S>(st: Sim<S>, swap: Swap, market: Market<S>) returns (r: Result<Sim<S>, ReplayError>)
    ensures r == Step(st, swap, market)
  {
    hide SplitAmount;
    if swap.tokenIn !in market.tokens {
      return Err(MissingToken(swap.tokenIn));
    }
    if swap.tokenOut !in market.tokens {
      return Err(MissingToken(swap.tokenOut));
    }
    var available, branchTotals := st.available, st.branchTotals;
    if swap.tokenIn !in branchTotals {
      branchTotals := branchTotals[swap.tokenIn := Balance(available, swap.tokenIn)];
    }
    var branchTotal := branchTotals[swap.tokenIn];
    assert branchTotal == BranchTotal(st, swap.tokenIn);
    var remaining := Balance(available, swap.tokenIn);
    var amountIn := remaining;
    if swap.split > 0.0 {
      var part := SplitAmount(branchTotal, swap.split);
      amountIn := if part < remaining then part else remaining;
    }
    available := available[swap.tokenIn := remaining - amountIn];

    var pool := PoolState(st.postSwap, market, swap.component);
    if pool.None? {
      return Err(MissingState(swap.component));
    }
    var result := market.pay(swap.component, pool.value, amountIn, swap.tokenIn, swap.tokenOut);
    if result.None? {
      return Err(Simulation(swap.component));
    }
    var totalGas := st.gas + result.value.gas;
    available := available[swap.tokenOut := Balance(available, swap.tokenOut) + result.value.amount];
    var simulated := st.swaps + [SimulatedSwap(amountIn, result.value.amount, result.value.gas)];
    var postSwap := st.postSwap[swap.component := result.value.next];
    assert branchTotals == st.branchTotals[swap.tokenIn := branchTotal];
    r := Ok(Sim(available, branchTotals, postSwap, totalGas, simulated));
  }

  /** The loop over the swaps. */
  method SimulateSwaps<S>(swaps: seq<Swap>, input: Token, output: Token, totalIn: nat, market: Market<S>)
    returns (r: Result<SimulatedRoute, ReplayError>)
    ensures r == Simulate(swaps, input, output, totalIn, market)
  {
    hide Step;
    var st := Start(input, totalIn);
    for i := 0 to |swaps|
      invariant Run(swaps, i, Start(input, totalIn), market) == Ok(st)
    {
      var next := RunSwap(st, swaps[i], market);
      if next.Err? {
        ErrPersists(swaps, i + 1, |swaps|, Start(input, totalIn), market);
        return Err(next.error);
      }
      st := next.value;
    }
    r := Ok(SimulatedRoute(st.swaps, Balance(st.available, output), st.gas));
  }

  lemma {:induction false} ErrPersists<S>(swaps: seq<Swap>, j: nat, k: nat, st: Sim<S>, market: Market<S>)
    requires j <= k <= |swaps| && Run(swaps, j, st, market).Err?
    ensures Run(swaps, k, st, market) == Run(swaps, j, st, market)
  {
    hide Step;
    if j < k {
      ErrPersists(swaps, j, k - 1, st, market);
    }
  }

  /** The swaps with the amounts the run gave them. */
  function WriteBack(swaps: seq<Swap>, sims: seq<SimulatedSwap>): seq<Swap>
    requires |swaps| == |sims|
  {
    seq(|swaps|, i requires 0 <= i < |swaps| => swaps[i].(amountIn := sims[i].amountIn, amountOut := sims[i].amountOut))
  }

  /** The replay of a route: from its first swap's input to its last swap's output. */
  function ReplayRoute<S>(swaps: seq<Swap>, market: Market<S>): Result<SimulatedRoute, ReplayError> {
    if |swaps| == 0 then Err(EmptyRoute)
    else
      var input := swaps[0].tokenIn;
      Simulate(swaps, input, swaps[|swaps| - 1].tokenOut, TotalIn(swaps, input), market)
  }
}
