/**
 Value accounting over a whole route: sums over swaps regrouped by token, conservation of value, and
 the bound of one leg's value by the output of the route.
 */
module RouteFlow {
  import opened Sequences
  import opened Routes
  import opened RouteValue
  import opened RouteLoops
  import opened RoutePrices

  // ---------------------------------------------------------------- regrouping sums by token

  /** The sum of `val(s)` over the swaps whose key is `t`. */
  ghost function KeyTotal(swaps: seq<Swap>, key: Swap -> Token, val: Swap -> real, t: Token): real {
    if |swaps| == 0 then 0.0
    else
      var last := swaps[|swaps| - 1];
      KeyTotal(swaps[..|swaps| - 1], key, val, t) + if key(last) == t then val(last) else 0.0
  }

  /** The sum of `val(s)` weighted by its token's weight. */
  ghost function WeightedTotal(swaps: seq<Swap>, key: Swap -> Token, val: Swap -> real, g: Token -> real): real {
    if |swaps| == 0 then 0.0
    else
      var last := swaps[|swaps| - 1];
      WeightedTotal(swaps[..|swaps| - 1], key, val, g) + val(last) * g(key(last))
  }

  /** The same sum, one token at a time. */
  ghost function GroupedTotal(
    ts: seq<Token>, swaps: seq<Swap>, key: Swap -> Token, val: Swap -> real, g: Token -> real): real {
    if |ts| == 0 then 0.0
    else
      var t := ts[|ts| - 1];
      GroupedTotal(ts[..|ts| - 1], swaps, key, val, g) + KeyTotal(swaps, key, val, t) * g(t)
  }

  lemma {:induction false} Regroup(
    ts: seq<Token>, swaps: seq<Swap>, key: Swap -> Token, val: Swap -> real, g: Token -> real)
    requires Unique(ts) && forall s | s in swaps :: key(s) in ts
    ensures WeightedTotal(swaps, key, val, g) == GroupedTotal(ts, swaps, key, val, g)
  {
    if |swaps| == 0 {
      NothingToGroup(ts, swaps, key, val, g);
    } else {
      Regroup(ts, swaps[..|swaps| - 1], key, val, g);
      assert swaps[|swaps| - 1] in swaps;
      RegroupLast(ts, swaps, key, val, g);
    }
  }

  lemma {:induction false} NothingToGroup(
    ts: seq<Token>, swaps: seq<Swap>, key: Swap -> Token, val: Swap -> real, g: Token -> real)
    requires |swaps| == 0
    ensures GroupedTotal(ts, swaps, key, val, g) == 0.0
  {
    if |ts| > 0 {
      NothingToGroup(ts[..|ts| - 1], swaps, key, val, g);
    }
  }

  lemma {:induction false} RegroupLast(
    ts: seq<Token>, swaps: seq<Swap>, key: Swap -> Token, val: Swap -> real, g: Token -> real)
    requires Unique(ts) && |swaps| > 0
    ensures var last := swaps[|swaps| - 1];
            GroupedTotal(ts, swaps, key, val, g)
            == GroupedTotal(ts, swaps[..|swaps| - 1], key, val, g)
             + if key(last) in ts then val(last) * g(key(last)) else 0.0
  {
    hide KeyTotal;
    if |ts| > 0 {
      var rest, t := ts[..|ts| - 1], ts[|ts| - 1];
      RegroupLast(rest, swaps, key, val, g);
      KeyTotalLast(swaps, key, val, t, g(t));
      InRest(ts, key(swaps[|swaps| - 1]));
    }
  }

  lemma InRest(ts: seq<Token>, x: Token)
    requires Unique(ts) && |ts| > 0
    ensures x in ts <==> x in ts[..|ts| - 1] || x == ts[|ts| - 1]
    ensures x == ts[|ts| - 1] ==> x !in ts[..|ts| - 1]
  {
    assert ts == ts[..|ts| - 1] + [ts[|ts| - 1]];
  }

  lemma KeyTotalLast(swaps: seq<Swap>, key: Swap -> Token, val: Swap -> real, t: Token, weight: real)
    requires |swaps| > 0
    ensures var last := swaps[|swaps| - 1];
            KeyTotal(swaps, key, val, t) * weight
            == KeyTotal(swaps[..|swaps| - 1], key, val, t) * weight + if key(last) == t then val(last) * weight else 0.0
  {
    var last, before := swaps[|swaps| - 1], KeyTotal(swaps[..|swaps| - 1], key, val, t);
    if key(last) == t {
      assert (before + val(last)) * weight == before * weight + val(last) * weight;
    }
  }

  ghost function Enumerate(s: set<Token>): (ts: seq<Token>)
    ensures Unique(ts)
    ensures forall t :: t in ts <==> t in s
  {
    if s == {} then []
    else
      var t :| t in s;
      Enumerate(s - {t}) + [t]
  }

  // ---------------------------------------------------------------- the two sums of a route

  ghost function TakenToken(s: Swap): Token { s.tokenIn }

  ghost function PaidToken(s: Swap): Token { s.tokenOut }

  ghost function PaidAmount(s: Swap): real { s.amountOut as real }

  /** What each swap pays, at prices `u`. */
  ghost function PaidValue(u: Token -> real): Swap -> real {
    (s: Swap) => s.amountOut as real * u(s.tokenOut)
  }

  lemma {:induction false} PaidTotalIsKeyTotal(swaps: seq<Swap>, t: Token)
    ensures KeyTotal(swaps, PaidToken, PaidAmount, t) == TotalOut(swaps, t) as real
  {
    if |swaps| > 0 {
      PaidTotalIsKeyTotal(swaps[..|swaps| - 1], t);
    }
  }

  lemma {:induction false} GroupValueIsKeyTotal(swaps: seq<Swap>, t: Token, u: Token -> real)
    ensures KeyTotal(swaps, TakenToken, PaidValue(u), t) == GroupValue(swaps, t, u)
  {
    if |swaps| > 0 {
      GroupValueIsKeyTotal(swaps[..|swaps| - 1], t, u);
    }
  }

  /** What token `t` gains in value: all paid of it by `x`, less what the takers in `q` make of it. */
  ghost function TokenGain(x: seq<Swap>, q: seq<Swap>, u: Token -> real, rho: Token -> real, t: Token): real {
    TotalOut(x, t) as real * u(t) - GroupValue(q, t, u) * rho(t)
  }

  ghost function TotalGain(ts: seq<Token>, x: seq<Swap>, q: seq<Swap>, u: Token -> real, rho: Token -> real): real {
    if |ts| == 0 then 0.0
    else TotalGain(ts[..|ts| - 1], x, q, u, rho) + TokenGain(x, q, u, rho, ts[|ts| - 1])
  }

  lemma {:induction false} TotalGainIsDifference(
    ts: seq<Token>, x: seq<Swap>, q: seq<Swap>, u: Token -> real, rho: Token -> real)
    ensures TotalGain(ts, x, q, u, rho)
         == GroupedTotal(ts, x, PaidToken, PaidAmount, u) - GroupedTotal(ts, q, TakenToken, PaidValue(u), rho)
  {
    hide KeyTotal, TotalOut, GroupValue;
    if |ts| > 0 {
      TotalGainIsDifference(ts[..|ts| - 1], x, q, u, rho);
      PaidTotalIsKeyTotal(x, ts[|ts| - 1]);
      GroupValueIsKeyTotal(q, ts[|ts| - 1], u);
    }
  }

  /** Summed over swaps or over tokens, the gain is the same. */
  lemma GainBySwapIsGainByToken(ts: seq<Token>, x: seq<Swap>, q: seq<Swap>, u: Token -> real, rho: Token -> real)
    requires Unique(ts) && (forall t | t in Tokens(x) || t in Tokens(q) :: t in ts)
    ensures WeightedTotal(x, PaidToken, PaidAmount, u) - WeightedTotal(q, TakenToken, PaidValue(u), rho)
         == TotalGain(ts, x, q, u, rho)
  {
    Regroup(ts, x, PaidToken, PaidAmount, u);
    Regroup(ts, q, TakenToken, PaidValue(u), rho);
    TotalGainIsDifference(ts, x, q, u, rho);
  }

  /** If only the two end tokens gain or lose, the total is what they gain. */
  lemma {:induction false} OnlyEndsGain(
    ts: seq<Token>, x: seq<Swap>, q: seq<Swap>, u: Token -> real, rho: Token -> real, input: Token, output: Token)
    requires Unique(ts) && input != output
    requires forall t | t in ts && t != input && t != output :: TokenGain(x, q, u, rho, t) == 0.0
    ensures TotalGain(ts, x, q, u, rho)
         == (if input in ts then TokenGain(x, q, u, rho, input) else 0.0)
          + (if output in ts then TokenGain(x, q, u, rho, output) else 0.0)
  {
    if |ts| > 0 {
      var rest, t := ts[..|ts| - 1], ts[|ts| - 1];
      assert ts == rest + [t];
      OnlyEndsGain(rest, x, q, u, rho, input, output);
    }
  }

  // ---------------------------------------------------------------- conservation

  /** A route from `input` to `output`: nothing pays the input token, nothing takes the output token. */
  ghost predicate Ends(swaps: seq<Swap>, input: Token, output: Token) {
    && input != output
    && forall s | s in swaps :: s.tokenOut != input && s.tokenIn != output
  }

  /** Every intermediate token that is taken at all is taken exactly as paid. */
  ghost predicate Balanced(swaps: seq<Swap>, input: Token, output: Token) {
    forall t | t != input && t != output && TotalIn(swaps, t) > 0 :: TotalOut(swaps, t) == TotalIn(swaps, t)
  }

  ghost function Unit(t: Token): real { 1.0 }

  /** The input token's value is the whole output of the route. */
  lemma ValueIsConserved(swaps: seq<Swap>, input: Token, output: Token, u: Token -> real)
    requires Ends(swaps, input, output) && Balanced(swaps, input, output) && AveragePrices(swaps, output, u)
    ensures GroupValue(swaps, input, u) == TotalOut(swaps, output) as real
  {
    hide GroupValue, TotalOut, TotalIn, PricedAtAverage, TokenGain, WeightedTotal, Balanced;
    forall t | t != input && t != output
      ensures TokenGain(swaps, swaps, u, Unit, t) == 0.0
    {
      BalancedTokenGain(swaps, input, output, t, u);
    }
    var ts := Enumerate(Tokens(swaps) + {input, output});
    GainBySwapIsGainByToken(ts, swaps, swaps, u, Unit);
    OnlyEndsGain(ts, swaps, swaps, u, Unit, input, output);
    SameWeights(swaps, u);
    OutputGain(swaps, swaps, output, u, Unit);
    UnpaidGain(swaps, input, u);
  }

  lemma BalancedTokenGain(swaps: seq<Swap>, input: Token, output: Token, t: Token, u: Token -> real)
    requires AveragePrices(swaps, output, u) && Balanced(swaps, input, output) && t != input && t != output
    ensures TokenGain(swaps, swaps, u, Unit, t) == 0.0
  {
    hide GroupValue, TotalOut, TotalIn;
    PaidIsWorth(swaps, input, output, t, u);
  }

  lemma UnpaidGain(swaps: seq<Swap>, t: Token, u: Token -> real)
    requires forall s | s in swaps :: s.tokenOut != t
    ensures TokenGain(swaps, swaps, u, Unit, t) == -GroupValue(swaps, t, u)
  {
    hide GroupValue, TotalOut;
    TotalOutNeedsPayer(swaps, t);
  }

  lemma {:induction false} SameWeights(swaps: seq<Swap>, u: Token -> real)
    ensures WeightedTotal(swaps, PaidToken, PaidAmount, u) == WeightedTotal(swaps, TakenToken, PaidValue(u), Unit)
  {
    if |swaps| > 0 {
      SameWeights(swaps[..|swaps| - 1], u);
    }
  }

  lemma TopologicalIsLoopFree(swaps: seq<Swap>, output: Token)
    requires Topological(swaps)
    ensures LoopFree(swaps, output)
  {
    forall t | t in Tokens(swaps)
      ensures TokenOutput(swaps, t, output, {}).Some?
    {
      TopologicalNeverLoops(swaps, t, output);
    }
  }

  /** The fraction computed for the input token is the whole output of the route, exactly. */
  lemma AttributionConserved(swaps: seq<Swap>, input: Token, output: Token)
    requires ZeroInZeroOut(swaps) && LoopFree(swaps, output) && input in Tokens(swaps)
    requires Ends(swaps, input, output) && Balanced(swaps, input, output)
    ensures var f := TokenOutput(swaps, input, output, {});
            f.Some? && f.value.den > 0 && f.value.num == TotalOut(swaps, output) * f.value.den
  {
    hide TokenOutput, TokenOutputPrefix, WalkPrices, Equals, PricedAtAverage;
    var u := WalkPrices(swaps, output);
    WalkPricesAreAverage(swaps, output);
    FractionIsValue(swaps, input, output, {}, u);
    ValueIsConserved(swaps, input, output, u);
    WholeFraction(TokenOutput(swaps, input, output, {}).value, TotalOut(swaps, output));
  }

  lemma WholeFraction(f: Fraction, m: nat)
    requires Equals(f, m as real)
    ensures f.den > 0 && f.num == m * f.den
  {
    assert (m * f.den) as real == m as real * f.den as real;
  }

  /** A fraction as a real number. */
  ghost function Ratio(f: Fraction): real {
    if f.den == 0 then 0.0 else f.num as real / f.den as real
  }

  /** The shares of the swaps paying `t`, added up. */
  ghost function ShareTotal(swaps: seq<Swap>, k: nat, t: Token, output: Token): real
    requires k <= |swaps|
  {
    if k == 0 then 0.0
    else
      var leg := swaps[k - 1];
      var share := LegOutput(swaps, leg, output);
      ShareTotal(swaps, k - 1, t, output)
      + if leg.tokenOut == t && share.Some? then Ratio(share.value) else 0.0
  }

  /** The legs paying one token share exactly what that token's takers make of it. */
  lemma SharesAddUp(swaps: seq<Swap>, input: Token, output: Token, t: Token)
    requires ZeroInZeroOut(swaps) && LoopFree(swaps, output)
    requires Balanced(swaps, input, output)
    requires t in Tokens(swaps) && t != input && t != output
    ensures var f := TokenOutput(swaps, t, output, {});
            f.Some? && ShareTotal(swaps, |swaps|, t, output) == Ratio(f.value)
  {
    hide TokenOutput, TokenOutputPrefix, WalkPrices, Equals, Ratio, ShareTotal, GroupValue, TotalOut, TotalIn,
         PricedAtAverage;
    var u := WalkPrices(swaps, output);
    WalkPricesAreAverage(swaps, output);
    FractionIsValue(swaps, t, output, {}, u);
    RatioOf(TokenOutput(swaps, t, output, {}).value, GroupValue(swaps, t, u));
    ShareTotalIsValue(swaps, |swaps|, t, output, u);
    assert swaps[..|swaps|] == swaps;
    PaidIsWorth(swaps, input, output, t, u);
  }

  /** All that is paid of a balanced token is worth what its takers make of it. */
  lemma PaidIsWorth(swaps: seq<Swap>, input: Token, output: Token, t: Token, u: Token -> real)
    requires AveragePrices(swaps, output, u) && Balanced(swaps, input, output) && t != input && t != output
    ensures TotalOut(swaps, t) as real * u(t) == GroupValue(swaps, t, u)
  {
    hide GroupValue, TotalOut, TotalIn;
    assert PricedAtAverage(swaps, u, t);
  }

  lemma RatioOf(f: Fraction, v: real)
    requires Equals(f, v)
    ensures Ratio(f) == v
  {}

  lemma {:induction false} ShareTotalIsValue(swaps: seq<Swap>, k: nat, t: Token, output: Token, u: Token -> real)
    requires k <= |swaps| && LoopFree(swaps, output) && AveragePrices(swaps, output, u) && t != output
    ensures ShareTotal(swaps, k, t, output) == TotalOut(swaps[..k], t) as real * u(t)
  {
    hide Ratio, Equals, PricedAtAverage, LegOutput;
    if k > 0 {
      LegExists(swaps, k - 1, output);
      ShareTotalIsValue(swaps, k - 1, t, output, u);
      assert swaps[..k][..k - 1] == swaps[..k - 1];
      var leg := swaps[k - 1];
      if leg.tokenOut == t {
        var v := leg.amountOut as real * u(leg.tokenOut);
        LegFractionIsValue(swaps, leg, output, u, v);
        RatioOf(LegOutput(swaps, leg, output).value, v);
        AddAmount(TotalOut(swaps[..k - 1], t), leg.amountOut, u(t));
      }
    }
  }

  lemma AddAmount(a: nat, b: nat, price: real)
    ensures (a + b) as real * price == a as real * price + b as real * price
  {}

  // ---------------------------------------------------------------- a leg is worth at most the route

  lemma {:induction false} TotalOutSplit(swaps: seq<Swap>, k: nat, t: Token)
    requires k <= |swaps|
    ensures TotalOut(swaps, t) == TotalOut(swaps[..k], t) + TotalOut(swaps[k..], t)
  {
    if k == |swaps| {
      assert swaps[..k] == swaps;
    } else {
      var front := swaps[..|swaps| - 1];
      TotalOutSplit(front, k, t);
      assert front[..k] == swaps[..k] && front[k..] == swaps[k..][..|swaps| - k - 1];
    }
  }

  /** The swaps that take one of the tokens. */
  ghost function TakersOf(swaps: seq<Swap>, tokens: set<Token>): seq<Swap> {
    if |swaps| == 0 then []
    else
      var n := |swaps| - 1;
      if swaps[n].tokenIn in tokens then TakersOf(swaps[..n], tokens) + [swaps[n]] else TakersOf(swaps[..n], tokens)
  }

  lemma {:induction false} TakersOfAre(swaps: seq<Swap>, tokens: set<Token>)
    ensures forall s :: s in TakersOf(swaps, tokens) <==> s in swaps && s.tokenIn in tokens
  {
    if |swaps| > 0 {
      var n := |swaps| - 1;
      TakersOfAre(swaps[..n], tokens);
      assert swaps == swaps[..n] + [swaps[n]];
    }
  }

  lemma {:induction false} PartTotals(swaps: seq<Swap>, tokens: set<Token>, t: Token, u: Token -> real)
    ensures TotalOut(TakersOf(swaps, tokens), t) <= TotalOut(swaps, t)
    ensures GroupValue(TakersOf(swaps, tokens), t, u) == if t in tokens then GroupValue(swaps, t, u) else 0.0
  {
    hide TotalOut, GroupValue;
    if |swaps| > 0 {
      var n := |swaps| - 1;
      PartTotals(swaps[..n], tokens, t, u);
      assert swaps == swaps[..n] + [swaps[n]];
      AppendTotals(swaps[..n], swaps[n], t, u);
      AppendTotals(TakersOf(swaps[..n], tokens), swaps[n], t, u);
    } else {
      NoTotals(swaps, t, u);
    }
  }

  lemma NoTotals(swaps: seq<Swap>, t: Token, u: Token -> real)
    requires |swaps| == 0
    ensures TotalOut(swaps, t) == 0 && GroupValue(swaps, t, u) == 0.0
  {}

  lemma AppendTotals(swaps: seq<Swap>, s: Swap, t: Token, u: Token -> real)
    ensures TotalOut(swaps + [s], t) == TotalOut(swaps, t) + if s.tokenOut == t then s.amountOut else 0
    ensures GroupValue(swaps + [s], t, u)
         == GroupValue(swaps, t, u) + if s.tokenIn == t then s.amountOut as real * u(s.tokenOut) else 0.0
  {
    assert (swaps + [s])[..|swaps|] == swaps;
  }

  /** The tokens that swaps lead to from `o`, with `o` itself. */
  ghost function Downstream(swaps: seq<Swap>, o: Token, output: Token): set<Token> {
    set t | t in Tokens(swaps) && Visits(swaps, o, output, t)
  }

  /** A swap that takes a token downstream of `o` pays the output or a token downstream, and never `o`. */
  lemma StaysDownstream(swaps: seq<Swap>, o: Token, output: Token, s: Swap)
    requires LoopFree(swaps, output) && o in Tokens(swaps) && o != output
    requires s in swaps && s.tokenIn in Downstream(swaps, o, output)
    ensures s.tokenOut == output || s.tokenOut in Downstream(swaps, o, output)
    ensures s.tokenOut != o
  {
    hide TokenOutput;
    if s.tokenOut != output {
      var w :| IsWalk(swaps, output, w) && w[0] == o && w[|w| - 1] == s.tokenIn;
      var longer := w + [s.tokenOut];
      assert Edge(swaps, s.tokenIn, s.tokenOut);
      forall j | 0 < j < |longer|
        ensures Edge(swaps, longer[j - 1], longer[j]) && longer[j] != output
      {
        assert j < |w| ==> Edge(swaps, w[j - 1], w[j]) && w[j] != output;
      }
      assert IsWalk(swaps, output, longer);
      if s.tokenOut == o {
        assert longer[..|longer| - 1][0] == o;
        assert Revisits(longer, {});
        LoopDetectionExact(swaps, o, output, {});
      }
    }
  }

  lemma OutputNotDownstream(swaps: seq<Swap>, o: Token, output: Token)
    requires o != output
    ensures output !in Downstream(swaps, o, output)
  {}

  /** Downstream of `o` only `o` itself loses value, all that its takers make of it. */
  lemma DownstreamGain(swaps: seq<Swap>, o: Token, input: Token, output: Token, u: Token -> real, t: Token)
    requires LoopFree(swaps, output) && AveragePrices(swaps, output, u) && (forall y :: u(y) >= 0.0)
    requires Ends(swaps, input, output) && Balanced(swaps, input, output)
    requires o in Tokens(swaps) && o != output && t != output && (t == input ==> t == o)
    ensures var part := TakersOf(swaps, Downstream(swaps, o, output));
            && TokenGain(part, part, u, Unit, t) <= 0.0
            && (t == o ==> TokenGain(part, part, u, Unit, t) == -GroupValue(swaps, o, u))
  {
    hide TotalIn, TotalOut, GroupValue, AveragePrices, Balanced, LoopFree, Downstream, TokenGain;
    var tokens := Downstream(swaps, o, output);
    var part := TakersOf(swaps, tokens);
    PartTotals(swaps, tokens, t, u);
    TakersOfAre(swaps, tokens);
    if t == o || t !in tokens {
      forall s | s in part
        ensures s.tokenOut != t
      {
        StaysDownstream(swaps, o, output, s);
      }
      UnpaidGain(part, t, u);
      OwnDownstream(swaps, o, output);
      GroupValueNonNegative(swaps, t, u);
    } else {
      PaidIsWorth(swaps, input, output, t, u);
      LessPaidGain(part, u, t, TotalOut(swaps, t), GroupValue(swaps, t, u));
    }
  }

  lemma LessPaidGain(part: seq<Swap>, u: Token -> real, t: Token, paid: nat, value: real)
    requires TotalOut(part, t) <= paid && u(t) >= 0.0 && GroupValue(part, t, u) == value == paid as real * u(t)
    ensures TokenGain(part, part, u, Unit, t) <= 0.0
  {
    hide TotalOut, GroupValue;
    LessPaid(TotalOut(part, t), paid, u(t));
  }

  lemma OwnDownstream(swaps: seq<Swap>, o: Token, output: Token)
    requires o in Tokens(swaps)
    ensures o in Downstream(swaps, o, output)
  {
    VisitsItself(swaps, o, output);
  }

  lemma LessPaid(a: nat, b: nat, price: real)
    requires a <= b && price >= 0.0
    ensures a as real * price <= b as real * price
  {
    assert (b - a) as real * price >= 0.0;
  }

  lemma {:induction false} GroupValueNonNegative(swaps: seq<Swap>, t: Token, u: Token -> real)
    requires forall y :: u(y) >= 0.0
    ensures GroupValue(swaps, t, u) >= 0.0
  {
    if |swaps| > 0 {
      GroupValueNonNegative(swaps[..|swaps| - 1], t, u);
      assert swaps[|swaps| - 1].amountOut as real * u(swaps[|swaps| - 1].tokenOut) >= 0.0;
    }
  }

  /** What the takers of any token make of it is at most what the route delivers. */
  lemma TokenWithinOutput(swaps: seq<Swap>, o: Token, input: Token, output: Token, u: Token -> real)
    requires LoopFree(swaps, output) && AveragePrices(swaps, output, u) && (forall y :: u(y) >= 0.0)
    requires Ends(swaps, input, output) && Balanced(swaps, input, output)
    requires o in Tokens(swaps) && o != output
    ensures GroupValue(swaps, o, u) <= TotalOut(swaps, output) as real
  {
    hide TotalOut, GroupValue, PricedAtAverage, TokenGain, Balanced, WeightedTotal, Downstream, LoopFree;
    var part := TakersOf(swaps, Downstream(swaps, o, output));
    PartTotals(swaps, Downstream(swaps, o, output), output, u);
    TakersOfAre(swaps, Downstream(swaps, o, output));
    forall t | t != o && t != output
      ensures TokenGain(part, part, u, Unit, t) <= 0.0
    {
      if t == input {
        InputNotPaid(swaps, o, input, output, u);
      } else {
        DownstreamGain(swaps, o, input, output, u, t);
      }
    }
    DownstreamGain(swaps, o, input, output, u, o);
    var ts := Enumerate(Tokens(part) + {o, output});
    GainBySwapIsGainByToken(ts, part, part, u, Unit);
    SameWeights(part, u);
    GainAtMost(ts, part, part, u, Unit, o, output);
    OutputNotDownstream(swaps, o, output);
    OutputGain(part, part, output, u, Unit);
  }

  lemma InputNotPaid(swaps: seq<Swap>, o: Token, input: Token, output: Token, u: Token -> real)
    requires Ends(swaps, input, output) && (forall y :: u(y) >= 0.0)
    ensures var part := TakersOf(swaps, Downstream(swaps, o, output)); TokenGain(part, part, u, Unit, input) <= 0.0
  {
    hide TotalOut, GroupValue, Downstream;
    var part := TakersOf(swaps, Downstream(swaps, o, output));
    TakersOfAre(swaps, Downstream(swaps, o, output));
    UnpaidGain(part, input, u);
    GroupValueNonNegative(part, input, u);
  }

  /** No leg is credited with more than the whole route delivers, in whatever order its swaps are listed. */
  lemma LegWithinOutput(swaps: seq<Swap>, input: Token, output: Token, e: nat)
    requires ZeroInZeroOut(swaps) && LoopFree(swaps, output) && e < |swaps|
    requires Ends(swaps, input, output) && Balanced(swaps, input, output)
    ensures var f := LegOutput(swaps, swaps[e], output);
            f.Some? && f.value.den > 0 && f.value.num <= TotalOut(swaps, output) * f.value.den
  {
    hide WalkPrices, LegOutput, Equals, PricedAtAverage, LoopFree, Balanced;
    var u := WalkPrices(swaps, output);
    WalkPricesAreAverage(swaps, output);
    WalkPricesNonNegative(swaps, output);
    LegExists(swaps, e, output);
    var v := swaps[e].amountOut as real * u(swaps[e].tokenOut);
    LegFractionIsValue(swaps, swaps[e], output, u, v);
    LegValueWithinOutput(swaps, input, output, e, u);
    BelowWhole(LegOutput(swaps, swaps[e], output).value, v, TotalOut(swaps, output));
  }

  lemma WalkPricesNonNegative(swaps: seq<Swap>, output: Token)
    requires ZeroInZeroOut(swaps)
    ensures forall t :: WalkPrices(swaps, output)(t) >= 0.0
  {}

  lemma LegExists(swaps: seq<Swap>, e: nat, output: Token)
    requires e < |swaps| && LoopFree(swaps, output)
    ensures LegOutput(swaps, swaps[e], output).Some?
  {}

  lemma BelowWhole(f: Fraction, v: real, m: nat)
    requires Equals(f, v) && v <= m as real
    ensures f.den > 0 && f.num <= m * f.den
  {
    assert (m * f.den) as real == m as real * f.den as real;
    assert (m as real - v) * f.den as real >= 0.0;
  }

  lemma LegValueWithinOutput(swaps: seq<Swap>, input: Token, output: Token, e: nat, u: Token -> real)
    requires LoopFree(swaps, output) && e < |swaps| && AveragePrices(swaps, output, u) && (forall y :: u(y) >= 0.0)
    requires Ends(swaps, input, output) && Balanced(swaps, input, output)
    ensures swaps[e].amountOut as real * u(swaps[e].tokenOut) <= TotalOut(swaps, output) as real
  {
    hide TotalOut, GroupValue, PricedAtAverage, Balanced, LoopFree;
    var o := swaps[e].tokenOut;
    assert swaps[e] in swaps;
    TotalOutCoversSwap(swaps, e);
    if o != output {
      TokenWithinOutput(swaps, o, input, output, u);
      PaidIsWorth(swaps, input, output, o, u);
      WorthWithin(swaps[e].amountOut, TotalOut(swaps, o), u(o), GroupValue(swaps, o, u),
                  TotalOut(swaps, output) as real);
    } else {
      WorthWithin(swaps[e].amountOut, TotalOut(swaps, o), 1.0, TotalOut(swaps, o) as real,
                  TotalOut(swaps, output) as real);
    }
  }

  lemma WorthWithin(a: nat, b: nat, price: real, value: real, bound: real)
    requires a <= b && price >= 0.0 && b as real * price == value <= bound
    ensures a as real * price <= bound
  {
    LessPaid(a, b, price);
  }

  /** The output token is worth one and nobody takes it, so it gains what is paid of it. */
  lemma OutputGain(x: seq<Swap>, q: seq<Swap>, output: Token, u: Token -> real, rho: Token -> real)
    requires u(output) == 1.0 && forall s | s in q :: s.tokenIn != output
    ensures TokenGain(x, q, u, rho, output) == TotalOut(x, output) as real
  {
    NoTakersNoValue(q, output, u);
  }

  /** If every other token gains nothing or loses, the total is at most what the two gain. */
  lemma {:induction false} GainAtMost(
    ts: seq<Token>, x: seq<Swap>, q: seq<Swap>, u: Token -> real, rho: Token -> real, o: Token, output: Token)
    requires Unique(ts) && o != output
    requires forall t | t != o && t != output :: TokenGain(x, q, u, rho, t) <= 0.0
    ensures TotalGain(ts, x, q, u, rho)
         <= (if o in ts then TokenGain(x, q, u, rho, o) else 0.0)
          + (if output in ts then TokenGain(x, q, u, rho, output) else 0.0)
  {
    hide TokenGain;
    if |ts| > 0 {
      assert ts == ts[..|ts| - 1] + [ts[|ts| - 1]];
      GainAtMost(ts[..|ts| - 1], x, q, u, rho, o, output);
    }
  }
}
