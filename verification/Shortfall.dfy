/**
 How far a second flow `x` through the swaps of a quoted flow `q` can fall short of it when one leg
 pays less: by no more than what the leg held back and what rounding can cost the swaps after it, at
 the average prices of the quoted flow.
 */
module Shortfall {
  import opened Arithmetic
  import opened Routes
  import opened RoutePrices
  import opened RouteFlow
  import opened ReplayFlow
  import opened Division

  ghost predicate SameShape(q: seq<Swap>, x: seq<Swap>) {
    && |q| == |x|
    && forall i | 0 <= i < |q| :: q[i].tokenIn == x[i].tokenIn && q[i].tokenOut == x[i].tokenOut
  }

  /** All that is paid of an intermediate token is taken on, if any swap takes it. */
  ghost predicate Drained(swaps: seq<Swap>, input: Token, output: Token) {
    forall t | t != input && t != output && TakenIn(swaps, 0, |swaps|, t) :: TotalOut(swaps, t) == TotalIn(swaps, t)
  }

  /** Swap `i` can see another input once the leg at `e` pays less: it takes a token first taken after the leg. */
  ghost predicate Affected(swaps: seq<Swap>, e: nat, i: nat)
    requires e < |swaps| && i < |swaps|
  {
    i > e && !TakenIn(swaps, 0, e + 1, swaps[i].tokenIn)
  }

  /** On no more input the pool pays no more and, but for `r` units, no less per unit; on more it pays no less. */
  ghost predicate PaysAlong(quoted: Swap, run: Swap, r: nat) {
    if run.amountIn <= quoted.amountIn then
      && run.amountOut <= quoted.amountOut
      && (run.amountOut + r) * quoted.amountIn >= quoted.amountOut * run.amountIn
    else run.amountOut >= quoted.amountOut
  }

  /** In the second flow swap `i` is at most `m` units short of its part of its token. */
  ghost predicate TakesNearPart(q: seq<Swap>, x: seq<Swap>, i: nat, m: nat)
    requires SameShape(q, x) && i < |q|
  {
    NearPart(x[i].amountIn, TotalIn(x, q[i].tokenIn), q[i].amountIn, TotalIn(q, q[i].tokenIn), m)
  }

  /** The two flows of a route whose leg `e` pays less the second time. */
  ghost predicate CutFlows(q: seq<Swap>, x: seq<Swap>, input: Token, output: Token, e: nat, m: seq<nat>, r: nat) {
    && SameShape(q, x) && e < |q| && |m| == |q|
    && ZeroInZeroOut(q) && Ends(q, input, output)
    && Drained(q, input, output) && Drained(x, input, output)
    && TotalIn(x, input) == TotalIn(q, input)
    && x[e].amountOut <= q[e].amountOut
    && forall i | 0 <= i < |q| && i != e :: KeepsUp(q, x, e, m, r, i)
  }

  ghost predicate KeepsUp(q: seq<Swap>, x: seq<Swap>, e: nat, m: seq<nat>, r: nat, i: nat)
    requires SameShape(q, x) && e < |q| && i < |q| && |m| == |q|
  {
    if Affected(q, e, i) then TakesNearPart(q, x, i, m[i]) && PaysAlong(q[i], x[i], r)
    else x[i].amountOut >= q[i].amountOut
  }

  /** How much of the quoted amount of `t` the second flow moves, at most all of it. */
  ghost function Scale(q: seq<Swap>, x: seq<Swap>): Token -> real {
    (t: Token) => CappedRatio(TotalIn(x, t), TotalIn(q, t))
  }

  ghost function CappedRatio(whole': nat, whole: nat): real {
    if whole' >= whole then 1.0 else whole' as real / whole as real
  }

  /** The value the leg holds back. */
  ghost function HeldBack(q: seq<Swap>, x: seq<Swap>, e: nat, u: Token -> real): real
    requires SameShape(q, x) && e < |q| && x[e].amountOut <= q[e].amountOut
  {
    (q[e].amountOut - x[e].amountOut) as real * u(q[e].tokenOut)
  }

  /** What rounding can cost swap `i`: `m` units of its input at its quoted rate and `r` of its output. */
  ghost function SwapSlack(q: seq<Swap>, e: nat, u: Token -> real, m: nat, r: nat, i: nat): real
    requires e < |q| && i < |q|
  {
    if !Affected(q, e, i) || q[i].amountIn == 0 then 0.0
    else Loss(q[i].amountOut, q[i].amountIn, m, r) * u(q[i].tokenOut)
  }

  ghost function Loss(amountOut: nat, amountIn: nat, m: nat, r: nat): real
    requires amountIn > 0
  {
    m as real * (amountOut as real / amountIn as real) + r as real
  }

  /** What rounding can cost the first `k` swaps together. */
  ghost function Slack(q: seq<Swap>, e: nat, u: Token -> real, m: seq<nat>, r: nat, k: nat): real
    requires e < |q| && |m| == |q| && k <= |q|
  {
    if k == 0 then 0.0 else Slack(q, e, u, m, r, k - 1) + SwapSlack(q, e, u, m[k - 1], r, k - 1)
  }

  /** Where no swap can be short and pools do not round, there is no slack. */
  lemma {:induction false} NoSlack(q: seq<Swap>, e: nat, u: Token -> real, m: seq<nat>, k: nat)
    requires e < |q| && |m| == |q| && k <= |q|
    requires forall i | 0 <= i < k && Affected(q, e, i) :: m[i] == 0
    ensures Slack(q, e, u, m, 0, k) == 0.0
  {
    if k > 0 {
      NoSlack(q, e, u, m, k - 1);
    }
  }

  // ---------------------------------------------------------------- no more than quoted counts

  /** The second flow, each swap credited with no more than it was quoted to pay. */
  ghost function Credited(q: seq<Swap>, x: seq<Swap>): seq<Swap>
    requires SameShape(q, x)
  {
    seq(|q|, i requires 0 <= i < |q| => x[i].(amountOut := Credit(q[i].amountOut, x[i].amountOut)))
  }

  ghost function Credit(quoted: nat, paid: nat): nat {
    if paid < quoted then paid else quoted
  }

  lemma CreditedIs(q: seq<Swap>, x: seq<Swap>, i: nat)
    requires SameShape(q, x) && i < |q|
    ensures var y := Credited(q, x);
            && |y| == |q| && y[i].tokenOut == q[i].tokenOut && y[i].amountOut == Credit(q[i].amountOut, x[i].amountOut)
  {}

  lemma {:induction false} TotalOutMonotone(q: seq<Swap>, x: seq<Swap>, t: Token)
    requires SameShape(q, x) && forall i | 0 <= i < |q| :: x[i].amountOut <= q[i].amountOut
    ensures TotalOut(x, t) <= TotalOut(q, t)
  {
    if |q| > 0 {
      TotalOutMonotone(q[..|q| - 1], x[..|x| - 1], t);
    }
  }

  lemma CreditedTotal(q: seq<Swap>, x: seq<Swap>, t: Token)
    requires SameShape(q, x)
    ensures TotalOut(Credited(q, x), t) <= TotalOut(q, t) && TotalOut(Credited(q, x), t) <= TotalOut(x, t)
  {
    hide TotalOut;
    TotalOutMonotone(q, Credited(q, x), t);
    TotalOutMonotone(x, Credited(q, x), t);
  }

  lemma PaidBefore(swaps: seq<Swap>, k: nat)
    requires k < |swaps| && PaidBeforeTaken(swaps, swaps[k].tokenIn)
    ensures TotalOut(swaps, swaps[k].tokenIn) == TotalOut(swaps[..k], swaps[k].tokenIn)
  {
    TotalOutSplit(swaps, k, swaps[k].tokenIn);
    TotalOutNeedsPayer(swaps[k..], swaps[k].tokenIn);
  }

  // ---------------------------------------------------------------- swap by swap

  /** A swap keeps its quoted output scaled by how much of its token moves, but for rounding. */
  lemma SwapKeepsValue(q: seq<Swap>, x: seq<Swap>, input: Token, output: Token, e: nat, m: seq<nat>, r: nat, i: nat)
    requires CutFlows(q, x, input, output, e, m, r) && i < |q| && Affected(q, e, i) && q[i].amountIn > 0
    ensures Credit(q[i].amountOut, x[i].amountOut) as real + Loss(q[i].amountOut, q[i].amountIn, m[i], r)
         >= q[i].amountOut as real * Scale(q, x)(q[i].tokenIn)
  {
    hide TotalIn, Drained, Loss, CappedRatio, NearPart, PaysAlong, Ends, ZeroInZeroOut;
    assert KeepsUp(q, x, e, m, r, i);
    var t := q[i].tokenIn;
    TotalInCoversSwap(q, i);
    var scale := CappedRatio(TotalIn(x, t), TotalIn(q, t));
    NearScale(x[i].amountIn, TotalIn(x, t), q[i].amountIn, TotalIn(q, t), m[i]);
    Keeps(q[i], x[i], scale, m[i], r);
  }

  lemma NearScale(part': nat, whole': nat, part: nat, whole: nat, m: nat)
    requires NearPart(part', whole', part, whole, m) && whole > 0
    ensures 0.0 <= CappedRatio(whole', whole) <= 1.0
    ensures part' as real + m as real >= CappedRatio(whole', whole) * part as real
  {
    if whole' < whole {
      var scale := whole' as real / whole as real;
      QuotientTimes(whole' as real, whole as real);
      ProductAsReal(part' + m, whole);
      ProductAsReal(part, whole');
      ExchangeFactors(part as real, scale, whole as real);
      CancelReal(scale * part as real, (part' + m) as real, whole as real);
      FractionOfWhole(whole', whole);
    }
  }

  lemma FractionOfWhole(part: nat, whole: nat)
    requires part < whole
    ensures 0.0 <= part as real / whole as real <= 1.0
  {}

  lemma Keeps(quoted: Swap, run: Swap, scale: real, m: nat, r: nat)
    requires PaysAlong(quoted, run, r) && quoted.amountIn > 0 && 0.0 <= scale <= 1.0
    requires run.amountIn as real + m as real >= scale * quoted.amountIn as real
    ensures run.amountOut as real + Loss(quoted.amountOut, quoted.amountIn, m, r) >= quoted.amountOut as real * scale
    ensures quoted.amountOut as real + Loss(quoted.amountOut, quoted.amountIn, m, r) >= quoted.amountOut as real * scale
  {
    var rate := quoted.amountOut as real / quoted.amountIn as real;
    RateIs(quoted.amountOut, quoted.amountIn, rate, m, scale);
    if run.amountIn <= quoted.amountIn {
      RateBound(quoted.amountOut, quoted.amountIn, run.amountOut + r, run.amountIn, rate);
      ScaledRate(rate, run.amountIn as real, m as real, scale, quoted.amountIn as real, quoted.amountOut as real);
    }
  }

  lemma RateIs(amountOut: nat, amountIn: nat, rate: real, m: nat, scale: real)
    requires amountIn > 0 && rate == amountOut as real / amountIn as real && scale <= 1.0
    ensures rate >= 0.0 && rate * amountIn as real == amountOut as real
    ensures m as real * rate >= 0.0 && amountOut as real * scale <= amountOut as real
  {
    QuotientTimes(amountOut as real, amountIn as real);
    CancelReal(0.0, rate, amountIn as real);
    MultiplyReal(0.0, m as real, rate);
    MultiplyReal(scale, 1.0, amountOut as real);
  }

  lemma RateBound(amountOut: nat, amountIn: nat, paid: nat, taken: nat, rate: real)
    requires amountIn > 0 && paid * amountIn >= amountOut * taken && rate * amountIn as real == amountOut as real
    ensures paid as real >= rate * taken as real
  {
    ProductAsReal(paid, amountIn);
    ProductAsReal(amountOut, taken);
    ExchangeFactors(taken as real, rate, amountIn as real);
    CancelReal(rate * taken as real, paid as real, amountIn as real);
  }

  lemma ScaledRate(rate: real, taken: real, m: real, scale: real, amountIn: real, amountOut: real)
    requires rate >= 0.0 && taken + m >= scale * amountIn && rate * amountIn == amountOut
    ensures rate * taken + m * rate >= amountOut * scale
  {
    MultiplyReal(scale * amountIn, taken + m, rate);
    ExchangeFactors(scale, rate, amountIn);
    assert (taken + m) * rate == rate * taken + m * rate;
  }

  lemma OneSwapGain(
    q: seq<Swap>, x: seq<Swap>, input: Token, output: Token, e: nat, m: seq<nat>, r: nat, u: Token -> real, i: nat)
    requires CutFlows(q, x, input, output, e, m, r) && i < |q| && (forall t :: u(t) >= 0.0)
    ensures Credit(q[i].amountOut, x[i].amountOut) as real * u(q[i].tokenOut)
          - q[i].amountOut as real * u(q[i].tokenOut) * Scale(q, x)(q[i].tokenIn)
         >= -SwapSlack(q, e, u, m[i], r, i) - if i == e then HeldBack(q, x, e, u) else 0.0
  {
    hide TotalIn, Drained, Loss, Ends, TakesNearPart, PaysAlong, CappedRatio, SwapSlack;
    var scale, price := Scale(q, x)(q[i].tokenIn), u(q[i].tokenOut);
    ScaleInUnit(TotalIn(x, q[i].tokenIn), TotalIn(q, q[i].tokenIn));
    if i == e {
      UnaffectedSlack(q, e, u, m[i], r, i);
      LegGain(x[i].amountOut, q[i].amountOut, price, scale);
    } else if Affected(q, e, i) && q[i].amountIn > 0 {
      AffectedGain(q, x, input, output, e, m, r, u, i);
    } else {
      assert KeepsUp(q, x, e, m, r, i);
      assert q[i] in q;
      UnaffectedSlack(q, e, u, m[i], r, i);
      LegGain(q[i].amountOut, q[i].amountOut, price, scale);
    }
  }

  lemma UnaffectedSlack(q: seq<Swap>, e: nat, u: Token -> real, m: nat, r: nat, i: nat)
    requires e < |q| && i < |q| && (!Affected(q, e, i) || q[i].amountIn == 0)
    ensures SwapSlack(q, e, u, m, r, i) == 0.0
  {}

  lemma AffectedGain(
    q: seq<Swap>, x: seq<Swap>, input: Token, output: Token, e: nat, m: seq<nat>, r: nat, u: Token -> real, i: nat)
    requires CutFlows(q, x, input, output, e, m, r) && i < |q| && Affected(q, e, i) && q[i].amountIn > 0
    requires u(q[i].tokenOut) >= 0.0
    ensures Credit(q[i].amountOut, x[i].amountOut) as real * u(q[i].tokenOut)
          - q[i].amountOut as real * u(q[i].tokenOut) * Scale(q, x)(q[i].tokenIn)
         >= -SwapSlack(q, e, u, m[i], r, i)
  {
    hide Scale, Credit, Loss, KeepsUp, Affected, Drained, Ends, ZeroInZeroOut;
    SwapKeepsValue(q, x, input, output, e, m, r, i);
    OrderScaled(q[i].amountOut as real, Scale(q, x)(q[i].tokenIn), Credit(q[i].amountOut, x[i].amountOut) as real,
                Loss(q[i].amountOut, q[i].amountIn, m[i], r), u(q[i].tokenOut));
  }

  lemma ScaleInUnit(whole': nat, whole: nat)
    ensures 0.0 <= CappedRatio(whole', whole) <= 1.0
  {}

  lemma LegGain(out': nat, out: nat, price: real, scale: real)
    requires out' <= out && price >= 0.0 && scale <= 1.0
    ensures out' as real * price - out as real * price * scale >= -((out - out') as real * price)
  {
    var v := out as real * price;
    assert v >= 0.0;
    assert v * scale <= v;
    assert (out - out') as real * price == v - out' as real * price;
  }

  lemma OrderScaled(a: real, scale: real, b: real, loss: real, price: real)
    requires a * scale <= b + loss && price >= 0.0
    ensures b * price - a * price * scale >= -(loss * price)
  {
    MultiplyReal(a * scale, b + loss, price);
    ExchangeFactors(price, a, scale);
    assert (b + loss) * price == b * price + loss * price;
  }

  /** What one swap adds to a weighted total. */
  ghost function Weighted(s: Swap, key: Swap -> Token, val: Swap -> real, g: Token -> real): real {
    val(s) * g(key(s))
  }

  lemma WeightedStep(swaps: seq<Swap>, k: nat, key: Swap -> Token, val: Swap -> real, g: Token -> real)
    requires k <= |swaps|
    ensures WeightedTotal(swaps[..k], key, val, g)
         == if k == 0 then 0.0 else WeightedTotal(swaps[..k - 1], key, val, g) + Weighted(swaps[k - 1], key, val, g)
  {
    if k > 0 {
      assert swaps[..k][..k - 1] == swaps[..k - 1];
    }
  }

  lemma {:induction false} GainPerSwap(
    q: seq<Swap>, x: seq<Swap>, input: Token, output: Token, e: nat, m: seq<nat>, r: nat, u: Token -> real, k: nat)
    requires CutFlows(q, x, input, output, e, m, r) && k <= |q| && (forall t :: u(t) >= 0.0)
    requires SameShape(q, x) && e < |q| == |m| && x[e].amountOut <= q[e].amountOut
    ensures WeightedTotal(Credited(q, x)[..k], PaidToken, PaidAmount, u)
          - WeightedTotal(q[..k], TakenToken, PaidValue(u), Scale(q, x))
         >= -Slack(q, e, u, m, r, k) - if e < k then HeldBack(q, x, e, u) else 0.0
  {
    hide Scale, HeldBack, WeightedTotal, Weighted, SwapSlack, Credit, Credited, CutFlows;
    var y := Credited(q, x);
    CreditedLength(q, x);
    WeightedStep(y, k, PaidToken, PaidAmount, u);
    WeightedStep(q, k, TakenToken, PaidValue(u), Scale(q, x));
    if k > 0 {
      GainPerSwap(q, x, input, output, e, m, r, u, k - 1);
      WeightedGain(q, x, input, output, e, m, r, u, k - 1);
    }
  }

  lemma WeightedGain(
    q: seq<Swap>, x: seq<Swap>, input: Token, output: Token, e: nat, m: seq<nat>, r: nat, u: Token -> real, i: nat)
    requires CutFlows(q, x, input, output, e, m, r) && i < |q| && (forall t :: u(t) >= 0.0)
    requires SameShape(q, x) && e < |q| == |m| == |Credited(q, x)| && x[e].amountOut <= q[e].amountOut
    ensures Weighted(Credited(q, x)[i], PaidToken, PaidAmount, u)
          - Weighted(q[i], TakenToken, PaidValue(u), Scale(q, x))
         >= -SwapSlack(q, e, u, m[i], r, i) - if i == e then HeldBack(q, x, e, u) else 0.0
  {
    hide Scale, HeldBack, SwapSlack, Credit, Credited, CutFlows, Weighted;
    OneSwapGain(q, x, input, output, e, m, r, u, i);
    CreditedIs(q, x, i);
    SwapTerms(Credited(q, x)[i], q[i], u, Scale(q, x));
  }

  lemma SwapTerms(paid: Swap, quoted: Swap, u: Token -> real, rho: Token -> real)
    ensures Weighted(paid, PaidToken, PaidAmount, u) == paid.amountOut as real * u(paid.tokenOut)
    ensures Weighted(quoted, TakenToken, PaidValue(u), rho)
              == quoted.amountOut as real * u(quoted.tokenOut) * rho(quoted.tokenIn)
  {}

  lemma CreditedLength(q: seq<Swap>, x: seq<Swap>)
    requires SameShape(q, x)
    ensures |Credited(q, x)| == |q|
  {}

  // ---------------------------------------------------------------- token by token

  /** No intermediate token gains value: what is credited of it is within what its takers are scaled to. */
  lemma IntermediateGain(
    q: seq<Swap>, x: seq<Swap>, input: Token, output: Token, e: nat, m: seq<nat>, r: nat, u: Token -> real, t: Token)
    requires CutFlows(q, x, input, output, e, m, r) && AveragePrices(q, output, u) && (forall y :: u(y) >= 0.0)
    requires t != input && t != output
    ensures TokenGain(Credited(q, x), q, u, Scale(q, x), t) <= 0.0
  {
    hide TotalIn, TotalOut, GroupValue, KeepsUp, CappedRatio, Credited, Ends, ZeroInZeroOut, Drained;
    assert PricedAtAverage(q, u, t);
    CreditedTotal(q, x, t);
    if TotalIn(q, t) > 0 {
      BothDrained(q, x, input, output, t);
      ScaledValue(TotalOut(Credited(q, x), t), u(t), TotalIn(q, t), TotalIn(x, t));
    } else {
      assert u(t) == 0.0;
    }
  }

  lemma BothDrained(q: seq<Swap>, x: seq<Swap>, input: Token, output: Token, t: Token)
    requires SameShape(q, x) && Drained(q, input, output) && Drained(x, input, output)
    requires t != input && t != output && TotalIn(q, t) > 0
    ensures TotalOut(q, t) == TotalIn(q, t) && TotalOut(x, t) == TotalIn(x, t)
  {
    hide TotalIn, TotalOut;
    TakenIsTakenIn(q, t);
    var i :| 0 <= i < |q| && q[i].tokenIn == t;
    assert x[i].tokenIn == t;
  }

  lemma TakenIsTakenIn(swaps: seq<Swap>, t: Token)
    requires TotalIn(swaps, t) > 0
    ensures TakenIn(swaps, 0, |swaps|, t)
  {
    hide TotalIn;
    if !TakenIn(swaps, 0, |swaps|, t) {
      TotalInNeedsTaker(swaps, t);
    }
  }

  lemma ScaledValue(paid: nat, price: real, whole: nat, whole': nat)
    requires whole > 0 && paid <= whole && paid <= whole' && price >= 0.0
    ensures paid as real * price - price * whole as real * CappedRatio(whole', whole) <= 0.0
  {
    if whole' >= whole {
      assert (whole - paid) as real * price >= 0.0;
    } else {
      var scale := whole' as real / whole as real;
      assert scale * whole as real == whole' as real;
      assert price * whole as real * scale == price * whole' as real;
      assert (whole' - paid) as real * price >= 0.0;
    }
  }

  /** Summed over tokens, the gain is at most the difference of the outputs. */
  lemma GainWithinOutput(
    q: seq<Swap>, x: seq<Swap>, input: Token, output: Token, e: nat, m: seq<nat>, r: nat, u: Token -> real)
    requires CutFlows(q, x, input, output, e, m, r) && AveragePrices(q, output, u) && (forall t :: u(t) >= 0.0)
    ensures WeightedTotal(Credited(q, x), PaidToken, PaidAmount, u)
          - WeightedTotal(q, TakenToken, PaidValue(u), Scale(q, x))
         <= TotalOut(x, output) as real - TotalOut(q, output) as real
  {
    hide TotalOut, TotalIn, GroupValue, TokenGain, Scale, KeepsUp, PricedAtAverage, Credited, WeightedTotal, Drained,
         ZeroInZeroOut;
    var rho, y := Scale(q, x), Credited(q, x);
    forall t | t != input && t != output
      ensures TokenGain(y, q, u, rho, t) <= 0.0
    {
      IntermediateGain(q, x, input, output, e, m, r, u, t);
    }
    var ts := Enumerate(Tokens(y) + Tokens(q) + {input, output});
    GainBySwapIsGainByToken(ts, y, q, u, rho);
    GainAtMost(ts, y, q, u, rho, input, output);
    OutputGain(y, q, output, u, rho);
    CreditedTotal(q, x, output);
    InputGain(q, x, input, output, u);
  }

  /**
   The second flow delivers at least the quoted output less the value the leg held back and the slack.
   */
  lemma ShortfallBound(
    q: seq<Swap>, x: seq<Swap>, input: Token, output: Token, e: nat, m: seq<nat>, r: nat, u: Token -> real)
    requires CutFlows(q, x, input, output, e, m, r) && AveragePrices(q, output, u) && (forall t :: u(t) >= 0.0)
    ensures TotalOut(x, output) as real
              >= TotalOut(q, output) as real - HeldBack(q, x, e, u) - Slack(q, e, u, m, r, |q|)
  {
    var y := Credited(q, x);
    assert |y| == |q| && y[..|q|] == y && q[..|q|] == q;
    assert SameShape(q, x) && e < |q| && |m| == |q| && x[e].amountOut <= q[e].amountOut;
    hide TotalOut, Scale, HeldBack, Slack, CutFlows, AveragePrices, Credited, WeightedTotal;
    GainWithinOutput(q, x, input, output, e, m, r, u);
    GainPerSwap(q, x, input, output, e, m, r, u, |q|);
  }

  lemma InputGain(q: seq<Swap>, x: seq<Swap>, input: Token, output: Token, u: Token -> real)
    requires SameShape(q, x) && Ends(q, input, output) && Drained(q, input, output) && AveragePrices(q, output, u)
    requires TotalIn(x, input) == TotalIn(q, input)
    ensures TokenGain(Credited(q, x), q, u, Scale(q, x), input) == -(TotalOut(q, output) as real)
  {
    hide PricedAtAverage, TotalIn, TotalOut, GroupValue;
    DrainedIsBalanced(q, input, output);
    ValueIsConserved(q, input, output, u);
    NothingPaysInput(q, Credited(q, x), input, output);
  }

  lemma DrainedIsBalanced(q: seq<Swap>, input: Token, output: Token)
    requires Drained(q, input, output)
    ensures Balanced(q, input, output)
  {
    hide TotalIn, TotalOut;
    forall t | t != input && t != output && TotalIn(q, t) > 0
      ensures TotalOut(q, t) == TotalIn(q, t)
    {
      TakenIsTakenIn(q, t);
    }
  }

  lemma NothingPaysInput(q: seq<Swap>, x: seq<Swap>, input: Token, output: Token)
    requires SameShape(q, x) && Ends(q, input, output)
    ensures TotalOut(x, input) == 0
  {
    hide TotalOut;
    forall s | s in x
      ensures s.tokenOut != input
    {
      var i :| 0 <= i < |x| && x[i] == s;
      assert q[i] in q;
    }
    TotalOutNeedsPayer(x, input);
  }
}
