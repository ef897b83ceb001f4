/**
 What an exclusive route promises the user, and how its surplus over that promise is held back at
 the exclusive legs.
 */
module Commitment {
  import opened Wrappers
  import opened Arithmetic
  import opened Routes
  import opened RouteValue
  import opened RouteLoops

  /** Basis points in one whole. */
  const BPS: nat := 10_000

  /** Fee on the exclusive leg when no public route exists, in basis points. */
  const NO_PUBLIC_ROUTE_FEE_BPS: nat := 5

  function Min(a: nat, b: nat): nat { if a < b then a else b }

  function Max(a: nat, b: nat): nat { if a < b then b else a }

  // ---------------------------------------------------------------- matched mode

  /** The user's part of the improvement: the least amount that is at least the share of it. */
  function UserImprovement(improvement: nat, share: nat): (r: nat)
    ensures r * 10_000 >= improvement * share
    ensures r > 0 ==> (r - 1) * 10_000 < improvement * share
    ensures share <= 10_000 ==> r <= improvement
  {
    var r := RoundedUp(improvement * share);
    if share <= BPS then ShareWithin(improvement, share, r); r else r
  }

  /** The least number of whole parts that covers `scaled` basis points of one. */
  function RoundedUp(scaled: nat): (r: nat)
    ensures r * BPS >= scaled
    ensures r > 0 ==> (r - 1) * BPS < scaled
  {
    (scaled + (BPS - 1)) / BPS
  }

  lemma ShareWithin(improvement: nat, share: nat, r: nat)
    requires share <= BPS && (r > 0 ==> (r - 1) * BPS < improvement * share)
    ensures r <= improvement
  {
    Multiply(share, BPS, improvement);
    if r > 0 {
      CancelStrict(r - 1, improvement, BPS);
    }
  }

  datatype RouteOutput = RouteOutput(amountOut: nat, netGas: nat)

  /** The user nets the public net plus the share of the improvement when paid `c`. */
  ghost predicate KeepsShare(public: RouteOutput, exclusive: RouteOutput, share: nat, c: nat)
    requires exclusive.netGas <= exclusive.amountOut && public.netGas <= exclusive.netGas
  {
    var gas := exclusive.amountOut - exclusive.netGas;
    && c >= public.netGas + gas
    && (c - gas - public.netGas) * BPS >= share * (exclusive.netGas - public.netGas)
  }

  /**
   The commitment against a public route, if the exclusive route passes both gates: the least
   amount that pays the public output and leaves the user their share, and one the route can pay.
   */
  function MatchedCommitment(public: RouteOutput, exclusive: RouteOutput, share: nat): (r: Option<nat>)
    requires exclusive.netGas <= exclusive.amountOut && share <= BPS
    ensures r.Some? <==> public.netGas <= exclusive.netGas && public.amountOut <= exclusive.amountOut
    ensures r.Some? ==>
              && public.amountOut <= r.value <= exclusive.amountOut
              && KeepsShare(public, exclusive, share, r.value)
              && (forall c: nat | c >= public.amountOut && KeepsShare(public, exclusive, share, c) :: r.value <= c)
  {
    if exclusive.netGas < public.netGas then None
    else
      var improvement := exclusive.netGas - public.netGas;
      var requiredNet := public.netGas + UserImprovement(improvement, share);
      if exclusive.amountOut < public.amountOut then None
      else
        var gasCost := exclusive.amountOut - exclusive.netGas;
        LeastShare(improvement, share);
        Some(Max(requiredNet + gasCost, public.amountOut))
  }

  lemma LeastShare(improvement: nat, share: nat)
    ensures forall m: nat | m * BPS >= share * improvement :: UserImprovement(improvement, share) <= m
  {
    assert improvement * share == share * improvement;
  }

  /** A larger share never lowers the commitment, and the whole share leaves no surplus. */
  lemma CommitmentFollowsShare(public: RouteOutput, exclusive: RouteOutput, s1: nat, s2: nat)
    requires exclusive.netGas <= exclusive.amountOut && s1 <= s2 <= BPS
    requires MatchedCommitment(public, exclusive, s2).Some?
    ensures MatchedCommitment(public, exclusive, s1).value <= MatchedCommitment(public, exclusive, s2).value
    ensures s2 == BPS ==> MatchedCommitment(public, exclusive, s2) == Some(exclusive.amountOut)
  {
    hide UserImprovement, KeepsShare;
    SmallerShareKept(public, exclusive, s1, s2, MatchedCommitment(public, exclusive, s2).value);
    if s2 == BPS {
      WholeShareIsAll(public, exclusive, MatchedCommitment(public, exclusive, s2).value);
    }
  }

  lemma SmallerShareKept(public: RouteOutput, exclusive: RouteOutput, s1: nat, s2: nat, c: nat)
    requires exclusive.netGas <= exclusive.amountOut && public.netGas <= exclusive.netGas && s1 <= s2
    requires KeepsShare(public, exclusive, s2, c)
    ensures KeepsShare(public, exclusive, s1, c)
  {
    Multiply(s1, s2, exclusive.netGas - public.netGas);
  }

  lemma WholeShareIsAll(public: RouteOutput, exclusive: RouteOutput, c: nat)
    requires exclusive.netGas <= exclusive.amountOut && public.netGas <= exclusive.netGas
    requires KeepsShare(public, exclusive, BPS, c)
    ensures c >= exclusive.amountOut
  {}

  /** A commitment above the public output is the least that leaves the user the share, in ten-thousandths. */
  lemma MatchedIsLeastShare(public: RouteOutput, exclusive: RouteOutput, share: nat)
    requires exclusive.netGas <= exclusive.amountOut && share <= 10_000
    requires MatchedCommitment(public, exclusive, share).Some?
    ensures var c := MatchedCommitment(public, exclusive, share).value;
            var improvement := exclusive.netGas - public.netGas;
            var kept := c - (exclusive.amountOut - exclusive.netGas) - public.netGas;
            && kept >= 0 && kept * 10_000 >= improvement * share
            && (c > public.amountOut && kept > 0 ==> (kept - 1) * 10_000 < improvement * share)
  {
    Commuted(exclusive.netGas - public.netGas, share);
  }

  lemma Commuted(a: nat, b: nat)
    ensures a * b == b * a
  {}

  /** What the protocol keeps is at most the improvement less the user's share of it. */
  lemma SurplusWithinImprovement(public: RouteOutput, exclusive: RouteOutput, share: nat)
    requires exclusive.netGas <= exclusive.amountOut && share <= BPS
    requires MatchedCommitment(public, exclusive, share).Some?
    ensures var c := MatchedCommitment(public, exclusive, share).value;
            var improvement := exclusive.netGas - public.netGas;
            && exclusive.amountOut - c <= improvement - UserImprovement(improvement, share)
            && (exclusive.amountOut - c) * BPS <= improvement * (BPS - share)
  {
    var c := MatchedCommitment(public, exclusive, share).value;
    var improvement := exclusive.netGas - public.netGas;
    assert c - (exclusive.amountOut - exclusive.netGas) - public.netGas >= UserImprovement(improvement, share);
    assert improvement * (BPS - share) == improvement * BPS - improvement * share;
  }

  // ---------------------------------------------------------------- capturing the surplus

  /** The most that swap `i` can hold back, in route output. */
  function LegCapacity(swaps: seq<Swap>, output: Token, i: nat): nat
    requires i < |swaps| && ZeroInZeroOut(swaps)
  {
    var f := LegOutput(swaps, swaps[i], output);
    if !swaps[i].exclusive || f.None? then 0
    else
      LegDenominatorPositive(swaps, swaps[i], output);
      f.value.num / f.value.den
  }

  /** The most that the first `k` swaps can hold back together. */
  function Capacity(swaps: seq<Swap>, output: Token, k: nat): nat
    requires k <= |swaps| && ZeroInZeroOut(swaps)
  {
    if k == 0 then 0 else Capacity(swaps, output, k - 1) + LegCapacity(swaps, output, k - 1)
  }

  /** What swap `i` holds back of `surplus`: what is left after the swaps before it, up to its capacity. */
  function LegCapture(swaps: seq<Swap>, output: Token, surplus: nat, i: nat): nat
    requires i < |swaps| && ZeroInZeroOut(swaps)
    decreases i, 1
  {
    Min(surplus - CapturedTotal(swaps, output, surplus, i), LegCapacity(swaps, output, i))
  }

  /** What the first `k` swaps hold back, added up. */
  function CapturedTotal(swaps: seq<Swap>, output: Token, surplus: nat, k: nat): (total: nat)
    requires k <= |swaps| && ZeroInZeroOut(swaps)
    ensures total <= surplus
    decreases k, 0
  {
    if k == 0 then 0 else CapturedTotal(swaps, output, surplus, k - 1) + LegCapture(swaps, output, surplus, k - 1)
  }

  /** `captured` route output in units of the leg's own token, rounded down. */
  function LegCut(captured: nat, amountOut: nat, f: Fraction): nat
    requires f.num > 0
  {
    captured * amountOut * f.den / f.num
  }

  lemma LegDenominatorPositive(swaps: seq<Swap>, leg: Swap, output: Token)
    requires ZeroInZeroOut(swaps) && LegOutput(swaps, leg, output).Some?
    ensures LegOutput(swaps, leg, output).value.den > 0
  {
    if leg.tokenOut != output && TotalIn(swaps, leg.tokenOut) > 0 {
      TakenTokenIsKnown(swaps, leg.tokenOut);
      ZeroOutNeverDry(swaps, output);
      DenominatorPositive(swaps, leg.tokenOut, output, {});
    }
  }

  /**
   The cut never exceeds the leg's output; at the leg's average price it is worth at most what is
   captured, and one unit more would be worth more.
   */
  lemma LegCutBounds(captured: nat, amountOut: nat, f: Fraction)
    requires f.num > 0 && f.den > 0 && captured <= f.num / f.den
    ensures LegCut(captured, amountOut, f) <= amountOut
    ensures LegCut(captured, amountOut, f) * f.num <= captured * amountOut * f.den
    ensures captured * amountOut * f.den < (LegCut(captured, amountOut, f) + 1) * f.num
  {
    var cut := LegCut(captured, amountOut, f);
    DivisionBounds(captured * amountOut * f.den, f.num);
    DivisionBounds(f.num, f.den);
    WithinOutput(captured, amountOut, f.den, f.num, cut);
  }

  lemma WithinOutput(captured: nat, amountOut: nat, den: nat, num: nat, cut: nat)
    requires num > 0 && den > 0 && captured <= num / den
    requires cut * num <= captured * amountOut * den
    ensures cut <= amountOut
  {
    DivisionBounds(num, den);
    assert captured * den <= num / den * den;
    assert captured * amountOut * den == captured * den * amountOut;
    assert captured * den * amountOut <= num * amountOut;
    assert (cut - amountOut) * num <= 0;
  }

  /** What pinning does to one swap. */
  function PinnedSwap(swaps: seq<Swap>, output: Token, surplus: nat, i: nat): Swap
    requires i < |swaps| && ZeroInZeroOut(swaps)
  {
    var f := LegOutput(swaps, swaps[i], output);
    if !swaps[i].exclusive || f.None? || f.value.num == 0 then swaps[i]
    else
      var captured := LegCapture(swaps, output, surplus, i);
      LegDenominatorPositive(swaps, swaps[i], output);
      LegCutBounds(captured, swaps[i].amountOut, f.value);
      swaps[i].(committed := Some(swaps[i].amountOut - LegCut(captured, swaps[i].amountOut, f.value)))
  }

  /** In total exactly the surplus is held back, or all the legs can, whichever is less. */
  lemma {:induction false} CapturedExactly(swaps: seq<Swap>, output: Token, surplus: nat, k: nat)
    requires k <= |swaps| && ZeroInZeroOut(swaps)
    ensures CapturedTotal(swaps, output, surplus, k) == Min(surplus, Capacity(swaps, output, k))
  {
    hide LegCapacity, ZeroInZeroOut;
    if k > 0 {
      CapturedExactly(swaps, output, surplus, k - 1);
    }
  }

  /**
   Pinning leaves other swaps alone and commits each exclusive leg with value to its output less a cut:
   the most whole units worth no more, at the leg's average price, than what the legs before it left of
   the surplus and the leg's own value allow.
   */
  lemma PinnedExactly(swaps: seq<Swap>, output: Token, surplus: nat, i: nat)
    requires ZeroInZeroOut(swaps) && i < |swaps|
    ensures var f := LegOutput(swaps, swaps[i], output);
            var pinned := PinnedSwap(swaps, output, surplus, i);
            if !swaps[i].exclusive || f.None? || f.value.num == 0 then pinned == swaps[i]
            else
              && f.value.den > 0 && pinned.committed.Some? && pinned.committed.value <= swaps[i].amountOut
              && pinned == swaps[i].(committed := pinned.committed)
              && var captured := Min(surplus - CapturedTotal(swaps, output, surplus, i), f.value.num / f.value.den);
                 var cut := swaps[i].amountOut - pinned.committed.value;
                 cut * f.value.num <= captured * swaps[i].amountOut * f.value.den < (cut + 1) * f.value.num
  {
    hide LegOutput, LegCut, ZeroInZeroOut;
    var f := LegOutput(swaps, swaps[i], output);
    if swaps[i].exclusive && f.Some? && f.value.num != 0 {
      LegCaptures(swaps, output, surplus, i, f.value);
      LegCutBounds(LegCapture(swaps, output, surplus, i), swaps[i].amountOut, f.value);
    }
  }

  /**
   The capture loop, for any number of exclusive legs: each leg holds back what it can of what the
   legs before it left, and in total exactly as much as all of them can is held back.
   */
  method PinLegs(swaps: seq<Swap>, output: Token, surplus: nat) returns (pinned: seq<Swap>, left: nat)
    requires ZeroInZeroOut(swaps)
    ensures |pinned| == |swaps|
    ensures forall i | 0 <= i < |swaps| :: pinned[i] == PinnedSwap(swaps, output, surplus, i)
    ensures left == surplus - Min(surplus, Capacity(swaps, output, |swaps|))
  {
    hide LegOutput, LegCut, ZeroInZeroOut, PinnedSwap, LegCapture, CapturedTotal, Capacity;
    // Read before the swaps change.
    var legOutputs: seq<Option<Fraction>> := [];
    for i := 0 to |swaps|
      invariant |legOutputs| == i
      invariant forall j | 0 <= j < i ::
                  legOutputs[j] == if swaps[j].exclusive then LegOutput(swaps, swaps[j], output) else None
    {
      legOutputs := legOutputs + [if swaps[i].exclusive then LegOutput(swaps, swaps[i], output) else None];
    }

    pinned, left := swaps, surplus;
    NothingCaptured(swaps, output, surplus);
    for i := 0 to |swaps|
      invariant |pinned| == |swaps| && pinned[i..] == swaps[i..]
      invariant forall j | 0 <= j < i :: pinned[j] == PinnedSwap(swaps, output, surplus, j)
      invariant left == surplus - CapturedTotal(swaps, output, surplus, i)
    {
      assert pinned[i] == pinned[i..][0] == swaps[i];
      if swaps[i].exclusive && legOutputs[i].Some? && legOutputs[i].value.num != 0 {
        var f := legOutputs[i].value;
        LegCaptures(swaps, output, surplus, i, f);
        var captured := Min(left, f.num / f.den);
        var cut := LegCut(captured, swaps[i].amountOut, f);
        left := left - captured;
        pinned := pinned[i := pinned[i].(committed := Some(swaps[i].amountOut - cut))];
      } else {
        OtherCapturesNothing(swaps, output, surplus, i);
      }
    }
    CapturedExactly(swaps, output, surplus, |swaps|);
  }

  lemma NothingCaptured(swaps: seq<Swap>, output: Token, surplus: nat)
    requires ZeroInZeroOut(swaps)
    ensures CapturedTotal(swaps, output, surplus, 0) == 0
  {}

  lemma LegCaptures(swaps: seq<Swap>, output: Token, surplus: nat, i: nat, f: Fraction)
    requires ZeroInZeroOut(swaps) && i < |swaps| && swaps[i].exclusive
    requires LegOutput(swaps, swaps[i], output) == Some(f) && f.num != 0
    ensures f.den > 0
    ensures var captured := Min(surplus - CapturedTotal(swaps, output, surplus, i), f.num / f.den);
            && LegCut(captured, swaps[i].amountOut, f) <= swaps[i].amountOut
            && CapturedTotal(swaps, output, surplus, i + 1) == CapturedTotal(swaps, output, surplus, i) + captured
            && PinnedSwap(swaps, output, surplus, i)
               == swaps[i].(committed := Some(swaps[i].amountOut - LegCut(captured, swaps[i].amountOut, f)))
  {
    hide LegOutput, LegCut, ZeroInZeroOut;
    LegDenominatorPositive(swaps, swaps[i], output);
    LegCutBounds(LegCapture(swaps, output, surplus, i), swaps[i].amountOut, f);
  }

  lemma OtherCapturesNothing(swaps: seq<Swap>, output: Token, surplus: nat, i: nat)
    requires ZeroInZeroOut(swaps) && i < |swaps|
    requires var f := LegOutput(swaps, swaps[i], output); !swaps[i].exclusive || f.None? || f.value.num == 0
    ensures CapturedTotal(swaps, output, surplus, i + 1) == CapturedTotal(swaps, output, surplus, i)
    ensures PinnedSwap(swaps, output, surplus, i) == swaps[i]
  {
    hide LegOutput, ZeroInZeroOut;
    if swaps[i].exclusive && LegOutput(swaps, swaps[i], output).Some? {
      LegDenominatorPositive(swaps, swaps[i], output);
    }
  }

  // ---------------------------------------------------------------- the pinned quote

  datatype Surplus = Surplus(amount: nat, committed: nat)

  datatype Quote = Quote(amountOut: nat, netGas: nat, route: Option<seq<Swap>>, surplus: Option<Surplus>)

  /** The route's output token, if it has a swap. */
  function OutputToken(swaps: seq<Swap>): Option<Token> {
    if |swaps| == 0 then None else Some(LastToken(swaps))
  }

  /**
   Pins `quote` to the commitment. No subtraction underflows, committed and surplus add up to what
   the route pays, and the user's gas is unchanged.
   */
  method PinCommitment(quote: Quote, committed: nat) returns (pinned: Quote)
    requires quote.netGas <= quote.amountOut
    requires quote.amountOut - quote.netGas <= committed <= quote.amountOut
    requires quote.route.Some? ==> ZeroInZeroOut(quote.route.value)
    ensures pinned.amountOut == committed
    ensures pinned.surplus.Some? && pinned.surplus.value.committed == committed
    ensures pinned.surplus.value.amount + committed == quote.amountOut
    ensures pinned.netGas <= pinned.amountOut
    ensures pinned.amountOut - pinned.netGas == quote.amountOut - quote.netGas
    ensures pinned.route.Some? == quote.route.Some?
    ensures quote.route.Some? ==>
              var swaps, after := quote.route.value, pinned.route.value;
              && |after| == |swaps|
              && forall i | 0 <= i < |swaps| ::
                   after[i] == PinnedSwap(swaps, OutputToken(swaps).value, quote.amountOut - committed, i)
  {
    var gasCost := quote.amountOut - quote.netGas;
    var surplusAmount := quote.amountOut - committed;
    var route := quote.route;
    if quote.route.Some? && OutputToken(quote.route.value).Some? {
      var swaps, left := PinLegs(quote.route.value, OutputToken(quote.route.value).value, surplusAmount);
      route := Some(swaps);
    }
    pinned := Quote(committed, committed - gasCost, route, Some(Surplus(surplusAmount, committed)));
  }

  /** A matched commitment can always be pinned, and the user's net keeps the public net and the share. */
  lemma MatchedCanBePinned(public: RouteOutput, exclusive: RouteOutput, share: nat)
    requires exclusive.netGas <= exclusive.amountOut && share <= BPS
    requires MatchedCommitment(public, exclusive, share).Some?
    ensures var c := MatchedCommitment(public, exclusive, share).value;
            var gas := exclusive.amountOut - exclusive.netGas;
            && gas <= c <= exclusive.amountOut
            && c - gas >= public.netGas + UserImprovement(exclusive.netGas - public.netGas, share)
  {
    LeastShare(exclusive.netGas - public.netGas, share);
  }
}
