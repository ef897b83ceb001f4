/** Swaps, routes and the amounts a route moves per token. */
module Routes {
  import opened Wrappers

  /** A token address, read as a number. */
  type Token = nat

  type ComponentId = string

  /** One swap of a route. `committed` is set on an exclusive leg once its output is pinned. */
  datatype Swap = Swap(
    component: ComponentId,
    tokenIn: Token,
    tokenOut: Token,
    amountIn: nat,
    amountOut: nat,
    split: real,
    exclusive: bool,
    committed: Option<nat>)

  /** Every token some swap takes or pays. */
  function Tokens(swaps: seq<Swap>): set<Token> {
    (set s | s in swaps :: s.tokenIn) + (set s | s in swaps :: s.tokenOut)
  }

  /** What the last swap pays. */
  function LastToken(swaps: seq<Swap>): Token
    requires |swaps| > 0
  {
    swaps[|swaps| - 1].tokenOut
  }

  /** How much of `token` the swaps take in. */
  function TotalIn(swaps: seq<Swap>, token: Token): nat {
    if |swaps| == 0 then 0
    else
      var last := swaps[|swaps| - 1];
      TotalIn(swaps[..|swaps| - 1], token) + if last.tokenIn == token then last.amountIn else 0
  }

  /** How much of `token` the swaps pay out. */
  function TotalOut(swaps: seq<Swap>, token: Token): nat {
    if |swaps| == 0 then 0
    else
      var last := swaps[|swaps| - 1];
      TotalOut(swaps[..|swaps| - 1], token) + if last.tokenOut == token then last.amountOut else 0
  }

  /** A pool that gets nothing pays nothing. */
  ghost predicate ZeroInZeroOut(swaps: seq<Swap>) {
    forall s | s in swaps :: s.amountIn == 0 ==> s.amountOut == 0
  }

  /** Every swap paying a token runs before any swap taking it. */
  ghost predicate Topological(swaps: seq<Swap>) {
    forall i, j | 0 <= i <= j < |swaps| :: swaps[j].tokenOut != swaps[i].tokenIn
  }

  /** Every swap paying `t` runs before any swap taking it. */
  ghost predicate PaidBeforeTaken(swaps: seq<Swap>, t: Token) {
    forall i, j | 0 <= i <= j < |swaps| && swaps[i].tokenIn == t :: swaps[j].tokenOut != t
  }

  lemma {:induction false} TotalInCoversSwap(swaps: seq<Swap>, i: nat)
    requires i < |swaps|
    ensures swaps[i].amountIn <= TotalIn(swaps, swaps[i].tokenIn)
  {
    if i < |swaps| - 1 {
      TotalInCoversSwap(swaps[..|swaps| - 1], i);
    }
  }

  lemma {:induction false} TotalOutCoversSwap(swaps: seq<Swap>, i: nat)
    requires i < |swaps|
    ensures swaps[i].amountOut <= TotalOut(swaps, swaps[i].tokenOut)
  {
    if i < |swaps| - 1 {
      TotalOutCoversSwap(swaps[..|swaps| - 1], i);
    }
  }

  lemma {:induction false} TotalInNeedsTaker(swaps: seq<Swap>, token: Token)
    requires forall s | s in swaps :: s.tokenIn != token
    ensures TotalIn(swaps, token) == 0
  {
    if |swaps| > 0 {
      TotalInNeedsTaker(swaps[..|swaps| - 1], token);
    }
  }

  lemma {:induction false} TotalOutNeedsPayer(swaps: seq<Swap>, token: Token)
    requires forall s | s in swaps :: s.tokenOut != token
    ensures TotalOut(swaps, token) == 0
  {
    if |swaps| > 0 {
      TotalOutNeedsPayer(swaps[..|swaps| - 1], token);
    }
  }
}
