/** The commitment when no public route exists: the route output less a fee on the exclusive leg. */
module DefaultFee {
  import opened Wrappers
  import opened Arithmetic
  import opened Routes
  import opened RouteValue
  import opened RouteLoops
  import opened RouteFlow
  import opened Commitment

  /** `amount` scaled by basis points, rounded down. */
  function ScaleTruncating(amount: nat, bps: nat): (r: nat)
    ensures r * 10_000 <= amount * bps < (r + 1) * 10_000
  {
    amount * bps / BPS
  }

  /** The route's first exclusive leg and what it produces, if the route has one that does not loop. */
  function FeeBase(route: Option<seq<Swap>>): Option<Fraction> {
    if route.None? then None
    else
      var legs := ExclusiveLegs(route.value);
      if |legs| == 0 then None
      else
        assert legs[0] in legs;
        LegOutput(route.value, route.value[legs[0]], OutputToken(route.value).value)
  }

  /** Five basis points of the whole part of `f`. */
  function Fee(f: Fraction): (fee: nat)
    requires f.den > 0
    ensures fee * 10_000 <= 5 * (f.num / f.den) < (fee + 1) * 10_000
  {
    ScaleTruncating(f.num / f.den, NO_PUBLIC_ROUTE_FEE_BPS)
  }

  /**
   The route output less the fee, if that leaves the user something after gas. A commitment that is
   made can be pinned: it covers the gas and the route can pay it.
   */
  function DefaultFeeCommitment(quote: Quote): (r: Option<nat>)
    requires quote.netGas <= quote.amountOut
    requires FeeBase(quote.route).Some? ==>
               FeeBase(quote.route).value.den > 0 && Fee(FeeBase(quote.route).value) <= quote.amountOut
    ensures r.Some? <==> FeeBase(quote.route).Some? && Fee(FeeBase(quote.route).value) < quote.netGas
    ensures r.Some? ==> quote.amountOut - quote.netGas < r.value <= quote.amountOut
    ensures r.Some? ==> r.value + Fee(FeeBase(quote.route).value) == quote.amountOut
  {
    var f := FeeBase(quote.route);
    if f.None? then None
    else
      var committed := quote.amountOut - Fee(f.value);
      if committed <= quote.amountOut - quote.netGas then None else Some(committed)
  }

  /**
   The commitment holds back five basis points, rounded down, of what the first exclusive leg produces
   of the last swap's token, and is made exactly when that is less than what the user nets.
   */
  lemma {:induction false} FeeIsFiveBasisPoints(quote: Quote, swaps: seq<Swap>, e: nat)
    requires quote.netGas <= quote.amountOut && quote.route == Some(swaps)
    requires FeeBase(quote.route).Some? ==>
               FeeBase(quote.route).value.den > 0 && Fee(FeeBase(quote.route).value) <= quote.amountOut
    requires e < |swaps| && swaps[e].exclusive && forall i | 0 <= i < e :: !swaps[i].exclusive
    ensures var f := LegOutput(swaps, swaps[e], swaps[|swaps| - 1].tokenOut);
            DefaultFeeCommitment(quote).Some? <==>
              f.Some? && f.value.den > 0 && 5 * (f.value.num / f.value.den) < 10_000 * quote.netGas
    ensures DefaultFeeCommitment(quote).Some? ==>
              var f := LegOutput(swaps, swaps[e], swaps[|swaps| - 1].tokenOut).value;
              var fee := quote.amountOut - DefaultFeeCommitment(quote).value;
              f.den > 0 && fee >= 0 && fee * 10_000 <= 5 * (f.num / f.den) < (fee + 1) * 10_000
  {
    hide LegOutput, Fee;
    FirstLeg(swaps, e);
    var f := LegOutput(swaps, swaps[e], swaps[|swaps| - 1].tokenOut);
    assert FeeBase(quote.route) == f;
    if f.Some? {
      FeeGate(Fee(f.value), 5 * (f.value.num / f.value.den), quote.netGas);
    }
  }

  /** Without a route or an exclusive leg nothing is committed. */
  lemma NoLegNoCommitment(quote: Quote)
    requires quote.netGas <= quote.amountOut
    requires quote.route.None? || forall s | s in quote.route.value :: !s.exclusive
    ensures FeeBase(quote.route).None? && DefaultFeeCommitment(quote) == None
  {
    if quote.route.Some? {
      NoLegs(quote.route.value);
    }
  }

  lemma {:induction false} NoLegs(swaps: seq<Swap>)
    requires forall s | s in swaps :: !s.exclusive
    ensures ExclusiveLegs(swaps) == []
  {
    if |swaps| > 0 {
      NoLegs(swaps[..|swaps| - 1]);
    }
  }

  lemma FirstLeg(swaps: seq<Swap>, e: nat)
    requires e < |swaps| && swaps[e].exclusive && forall i | 0 <= i < e :: !swaps[i].exclusive
    ensures |ExclusiveLegs(swaps)| > 0 && ExclusiveLegs(swaps)[0] == e
  {
    var legs := ExclusiveLegs(swaps);
    assert e in legs;
    assert legs[0] in legs;
    var k :| 0 <= k < |legs| && legs[k] == e;
  }

  lemma FeeGate(fee: nat, scaled: nat, net: nat)
    requires fee * 10_000 <= scaled < (fee + 1) * 10_000
    ensures fee < net <==> scaled < 10_000 * net
  {}

  /** On a balanced route the fee never exceeds what the route pays, so the subtraction is safe. */
  lemma FeeNeverUnderflows(swaps: seq<Swap>)
    requires |swaps| > 0 && LoopFree(swaps, LastToken(swaps)) && ZeroInZeroOut(swaps) && FeeBase(Some(swaps)).Some?
    requires var input, output := swaps[0].tokenIn, LastToken(swaps);
             Ends(swaps, input, output) && Balanced(swaps, input, output)
    ensures var f := FeeBase(Some(swaps)).value;
            && f.den > 0
            && Fee(f) <= TotalOut(swaps, LastToken(swaps))
            && Fee(f) * BPS * f.den <= NO_PUBLIC_ROUTE_FEE_BPS * f.num
  {
    hide LegOutput, LoopFree;
    var legs := ExclusiveLegs(swaps);
    assert legs[0] in legs;
    LegWithinOutput(swaps, swaps[0].tokenIn, LastToken(swaps), legs[0]);
    var f := FeeBase(Some(swaps)).value;
    FeeArithmetic(f, TotalOut(swaps, LastToken(swaps)));
  }

  lemma FeeArithmetic(f: Fraction, whole: nat)
    requires f.den > 0 && f.num <= whole * f.den
    ensures Fee(f) <= whole && Fee(f) * BPS * f.den <= NO_PUBLIC_ROUTE_FEE_BPS * f.num
  {
    var value := f.num / f.den;
    ValueWithinWhole(f, whole);
    ScaledProduct(Fee(f) * BPS, value, f.den, f.num);
  }

  lemma ValueWithinWhole(f: Fraction, whole: nat)
    requires f.den > 0 && f.num <= whole * f.den
    ensures f.num / f.den <= whole && f.num / f.den * f.den <= f.num
  {
    DivisionBounds(f.num, f.den);
    assert (f.num / f.den - whole) * f.den <= 0;
  }

  lemma ScaledProduct(x: nat, value: nat, d: nat, n: nat)
    requires x <= value * NO_PUBLIC_ROUTE_FEE_BPS && value * d <= n
    ensures x * d <= NO_PUBLIC_ROUTE_FEE_BPS * n
  {
    var y := value * NO_PUBLIC_ROUTE_FEE_BPS;
    assert y == 5 * value;
    assert (y - x) * d >= 0;
    assert y * d == 5 * (value * d);
  }
}
