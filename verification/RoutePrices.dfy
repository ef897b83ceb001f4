/**
 What a token's fraction means: it is the token's total at the average prices of the pools after it.
 Prices are fixed by two rules about the tokens that swaps lead to, so they are a reference that does
 not mention the walk.
 */
module RoutePrices {
  import opened Wrappers
  import opened Arithmetic
  import opened Routes
  import opened RouteValue
  import opened RouteLoops

  /** The route output that the swaps taking `token` produce, if outputs are priced by `u`. */
  ghost function GroupValue(swaps: seq<Swap>, token: Token, u: Token -> real): real {
    if |swaps| == 0 then 0.0
    else
      var last := swaps[|swaps| - 1];
      GroupValue(swaps[..|swaps| - 1], token, u)
      + if last.tokenIn == token then last.amountOut as real * u(last.tokenOut) else 0.0
  }

  /**
   `u` prices every token at the average its takers get for it: a unit of output is worth one, all
   that is taken of a token is worth what its takers pay, and a token nobody takes is worth nothing.
   */
  ghost predicate AveragePrices(swaps: seq<Swap>, output: Token, u: Token -> real) {
    && u(output) == 1.0
    && forall t | t != output :: PricedAtAverage(swaps, u, t)
  }

  /** The same of the tokens that swaps lead to from `token` alone. */
  ghost predicate AveragePricesFrom(swaps: seq<Swap>, token: Token, output: Token, u: Token -> real) {
    && u(output) == 1.0
    && forall t | t != output && Visits(swaps, token, output, t) :: PricedAtAverage(swaps, u, t)
  }

  /** Some walk from `from` ends on `t`. */
  ghost predicate Visits(swaps: seq<Swap>, from: Token, output: Token, t: Token) {
    exists w :: IsWalk(swaps, output, w) && w[0] == from && w[|w| - 1] == t
  }

  lemma VisitsItself(swaps: seq<Swap>, t: Token, output: Token)
    ensures Visits(swaps, t, output, t)
  {
    assert IsWalk(swaps, output, [t]);
  }

  /** What is visited from the token a swap pays is visited from the token it takes. */
  lemma VisitsThrough(swaps: seq<Swap>, i: nat, output: Token, t: Token)
    requires i < |swaps| && swaps[i].tokenOut != output && Visits(swaps, swaps[i].tokenOut, output, t)
    ensures Visits(swaps, swaps[i].tokenIn, output, t)
  {
    var w :| IsWalk(swaps, output, w) && w[0] == swaps[i].tokenOut && w[|w| - 1] == t;
    var longer := [swaps[i].tokenIn] + w;
    assert swaps[i] in swaps && Edge(swaps, longer[0], longer[1]);
    forall j | 0 < j < |longer|
      ensures Edge(swaps, longer[j - 1], longer[j]) && longer[j] != output
    {
      if j > 1 {
        assert longer[j - 1] == w[j - 2] && longer[j] == w[j - 1];
      }
    }
    assert IsWalk(swaps, output, longer);
  }

  /** Prices that are right from a token are right from every token its takers pay. */
  lemma PricesCarryOver(swaps: seq<Swap>, i: nat, output: Token, u: Token -> real)
    requires i < |swaps| && swaps[i].tokenOut != output && AveragePricesFrom(swaps, swaps[i].tokenIn, output, u)
    ensures AveragePricesFrom(swaps, swaps[i].tokenOut, output, u) && PricedAtAverage(swaps, u, swaps[i].tokenOut)
  {
    hide Visits, PricedAtAverage;
    VisitsItself(swaps, swaps[i].tokenOut, output);
    forall t | t != output && Visits(swaps, swaps[i].tokenOut, output, t)
      ensures Visits(swaps, swaps[i].tokenIn, output, t)
    {
      VisitsThrough(swaps, i, output, t);
    }
  }

  ghost predicate PricedAtAverage(swaps: seq<Swap>, u: Token -> real, t: Token) {
    Worth(swaps, u, t, GroupValue(swaps, t, u))
  }

  /** All that is taken of `t` is worth `w` at the price `u`. */
  ghost predicate Worth(swaps: seq<Swap>, u: Token -> real, t: Token, w: real) {
    && w == u(t) * TotalIn(swaps, t) as real
    && (TotalIn(swaps, t) == 0 ==> u(t) == 0.0)
  }

  // ---------------------------------------------------------------- the fraction is the value

  /** The fraction is a fraction, and it equals `v`. */
  ghost predicate Equals(f: Fraction, v: real) {
    f.den > 0 && f.num as real == v * f.den as real
  }

  /** A term to add: it equals `v`, or both are zero. */
  ghost predicate TermEquals(term: Fraction, v: real) {
    if term.num == 0 then v == 0.0 else Equals(term, v)
  }

  lemma ZeroEquals()
    ensures Equals(Fraction(0, 1), 0.0)
  {}

  lemma AddIsExact(f: Fraction, term: Fraction, g: real, v: real, total: real)
    requires Equals(f, g) && TermEquals(term, v) && total == g + v
    ensures Equals(AddFraction(f, term), total)
  {
    if term.num != 0 {
      var n, d, tn, td := f.num as real, f.den as real, term.num as real, term.den as real;
      assert f.den * term.den > 0;
      assert (f.num * term.den) as real == n * td && (term.num * f.den) as real == tn * d;
      assert (f.den * term.den) as real == d * td;
      assert n * td == g * d * td;
      assert tn * d == v * td * d;
      assert (g + v) * (d * td) == g * d * td + v * td * d;
    }
  }

  lemma ScaleIsExact(b: nat, f: Fraction, a: nat, price: real, w: real, v: real)
    requires Equals(f, w) && w == price * a as real && (a == 0 ==> price == 0.0) && v == b as real * price
    ensures TermEquals(Fraction(b * f.num, f.den * a), v)
  {
    var n, d := f.num as real, f.den as real;
    assert (b * f.num) as real == b as real * n && (f.den * a) as real == d * a as real;
    if a > 0 {
      assert f.den * a > 0;
      assert b as real * n == v * (d * a as real);
      if b * f.num == 0 {
        ZeroFactor(v, d * a as real);
      }
    }
  }

  lemma ZeroFactor(x: real, y: real)
    requires x * y == 0.0 && y > 0.0
    ensures x == 0.0
  {}

  /** Adding swap `k - 1` keeps the sum exact when the token it pays is priced right. */
  lemma AddSwap(
    swaps: seq<Swap>, k: nat, output: Token, before: Fraction, next: Option<Fraction>, u: Token -> real, w: real)
    requires 0 < k <= |swaps| && u(output) == 1.0
    requires var token := swaps[k - 1].tokenIn; Equals(before, GroupValue(swaps[..k - 1], token, u))
    requires var o := swaps[k - 1].tokenOut;
             o != output ==> next.Some? && Equals(next.value, w) && Worth(swaps, u, o, w)
    ensures Equals(AddFraction(before, SwapFraction(swaps, swaps[k - 1], output, next)),
                   GroupValue(swaps[..k], swaps[k - 1].tokenIn, u))
  {
    hide AddFraction, Equals, TermEquals;
    var swap := swaps[k - 1];
    var term := SwapFraction(swaps, swap, output, next);
    var v := swap.amountOut as real * u(swap.tokenOut);
    GroupValueStep(swaps, k, swap.tokenIn, u);
    if swap.tokenOut == output {
      WholeEquals(swap.amountOut, v);
    } else {
      ScaleIsExact(swap.amountOut, next.value, TotalIn(swaps, swap.tokenOut), u(swap.tokenOut), w, v);
    }
    AddIsExact(before, term, GroupValue(swaps[..k - 1], swap.tokenIn, u), v, GroupValue(swaps[..k], swap.tokenIn, u));
  }

  lemma WholeEquals(b: nat, v: real)
    requires v == b as real
    ensures TermEquals(Fraction(b, 1), v)
  {}

  lemma GroupValueStep(swaps: seq<Swap>, k: nat, token: Token, u: Token -> real)
    requires 0 < k <= |swaps|
    ensures GroupValue(swaps[..k], token, u) == GroupValue(swaps[..k - 1], token, u)
              + if swaps[k - 1].tokenIn == token then swaps[k - 1].amountOut as real * u(swaps[k - 1].tokenOut) else 0.0
  {
    assert swaps[..k][..k - 1] == swaps[..k - 1];
  }

  /** Whatever prices satisfy the two rules from a token on, the walk's fraction is the token's value at them. */
  lemma {:induction false} FractionIsValue(
    swaps: seq<Swap>, token: Token, output: Token, path: set<Token>, u: Token -> real)
    requires token in Tokens(swaps) && AveragePricesFrom(swaps, token, output, u)
    requires TokenOutput(swaps, token, output, path).Some?
    ensures Equals(TokenOutput(swaps, token, output, path).value, GroupValue(swaps, token, u))
    decreases |Tokens(swaps) - path|, 0
  {
    hide Equals, Visits;
    SmallerRemainder(Tokens(swaps), path, token);
    FractionIsValuePrefix(swaps, |swaps|, token, output, path + {token}, u);
    assert swaps[..|swaps|] == swaps;
  }

  lemma {:induction false} FractionIsValuePrefix(
    swaps: seq<Swap>, k: nat, token: Token, output: Token, path: set<Token>, u: Token -> real)
    requires k <= |swaps| && AveragePricesFrom(swaps, token, output, u) && u(output) == 1.0
    requires TokenOutputPrefix(swaps, k, token, output, path).Some?
    ensures Equals(TokenOutputPrefix(swaps, k, token, output, path).value, GroupValue(swaps[..k], token, u))
    decreases |Tokens(swaps) - path|, k
  {
    hide AddFraction, SwapFraction, Equals, Worth, Visits;
    ZeroEquals();
    if k > 0 {
      FractionIsValuePrefix(swaps, k - 1, token, output, path, u);
      var swap := swaps[k - 1];
      if swap.tokenIn == token {
        var before := TokenOutputPrefix(swaps, k - 1, token, output, path).value;
        var next := if swap.tokenOut == output then None else TokenOutput(swaps, swap.tokenOut, output, path);
        if swap.tokenOut != output {
          PricesCarryOver(swaps, k - 1, output, u);
          FractionIsValue(swaps, swap.tokenOut, output, path, u);
        }
        AddSwap(swaps, k, output, before, next, u, GroupValue(swaps, swap.tokenOut, u));
      } else {
        GroupValueStep(swaps, k, token, u);
      }
    }
  }

  // ---------------------------------------------------------------- prices exist

  /** The price the walk gives a token. */
  ghost function WalkPrice(swaps: seq<Swap>, output: Token, t: Token): (p: real)
    ensures ZeroInZeroOut(swaps) ==> p >= 0.0
  {
    if t == output then 1.0
    else if TotalIn(swaps, t) == 0 then 0.0
    else
      TakenTokenIsKnown(swaps, t);
      var value := TokenOutput(swaps, t, output, {});
      if value.None? || value.value.den == 0 then 0.0
      else value.value.num as real / value.value.den as real / TotalIn(swaps, t) as real
  }

  ghost function WalkPrices(swaps: seq<Swap>, output: Token): Token -> real {
    (t: Token) => WalkPrice(swaps, output, t)
  }

  /** On a loop-free route the walk's own prices satisfy the two rules. */
  lemma WalkPricesAreAverage(swaps: seq<Swap>, output: Token)
    requires ZeroInZeroOut(swaps) && LoopFree(swaps, output)
    ensures AveragePrices(swaps, output, WalkPrices(swaps, output))
  {
    var u := WalkPrices(swaps, output);
    forall t | t != output
      ensures PricedAtAverage(swaps, u, t)
    {
      if t in Tokens(swaps) {
        WalkPriceIsAverage(swaps, output, t, u);
      } else {
        NoTakersNoValue(swaps, t, u);
        TotalInNeedsTaker(swaps, t);
      }
    }
  }

  /** From a token that loops nowhere, the walk's own prices satisfy the two rules, whatever loops elsewhere. */
  lemma WalkPricesAreAverageFrom(swaps: seq<Swap>, token: Token, output: Token)
    requires ZeroInZeroOut(swaps) && token in Tokens(swaps) && token != output
    requires TokenOutput(swaps, token, output, {}).Some?
    ensures AveragePricesFrom(swaps, token, output, WalkPrices(swaps, output))
  {
    hide TokenOutput, PricedAtAverage;
    forall t | t != output && Visits(swaps, token, output, t)
      ensures PricedAtAverage(swaps, WalkPrices(swaps, output), t)
    {
      var w :| IsWalk(swaps, output, w) && w[0] == token && w[|w| - 1] == t;
      VisitedSucceeds(swaps, output, w);
      WalkPriceIsAverage(swaps, output, t, WalkPrices(swaps, output));
    }
  }

  /** A walk that succeeds from a token succeeds from every token it visits. */
  lemma {:induction false} VisitedSucceeds(swaps: seq<Swap>, output: Token, w: seq<Token>)
    requires IsWalk(swaps, output, w) && w[0] in Tokens(swaps) && TokenOutput(swaps, w[0], output, {}).Some?
    ensures w[|w| - 1] in Tokens(swaps) && TokenOutput(swaps, w[|w| - 1], output, {}).Some?
    decreases |w|
  {
    if |w| > 1 {
      assert Edge(swaps, w[1 - 1], w[1]);
      var i :| 0 <= i < |swaps| && swaps[i].tokenIn == w[0] && swaps[i].tokenOut == w[1];
      assert swaps[i] in swaps && {} + {w[0]} == {w[0]};
      NextSucceeds(swaps, output, i);
      var rest := w[1..];
      forall j | 0 < j < |rest|
        ensures Edge(swaps, rest[j - 1], rest[j]) && rest[j] != output
      {
        assert rest[j - 1] == w[j] && rest[j] == w[j + 1];
      }
      VisitedSucceeds(swaps, output, rest);
    }
  }

  lemma NextSucceeds(swaps: seq<Swap>, output: Token, i: nat)
    requires i < |swaps| && swaps[i].tokenIn in Tokens(swaps) && swaps[i].tokenOut in Tokens(swaps)
    requires swaps[i].tokenOut != output
    requires TokenOutput(swaps, swaps[i].tokenIn, output, {}).Some?
    ensures TokenOutput(swaps, swaps[i].tokenOut, output, {}).Some?
  {
    var x := swaps[i].tokenIn;
    assert {} + {x} == {x};
    if TokenOutputPrefix(swaps, i + 1, x, output, {x}).None? {
      NonePersists(swaps, i + 1, |swaps|, x, output, {x});
    } else {
      PathDoesNotMatter(swaps, swaps[i].tokenOut, output, {}, {x});
    }
  }

  lemma WalkPriceIsAverage(swaps: seq<Swap>, output: Token, t: Token, u: Token -> real)
    requires ZeroInZeroOut(swaps) && t in Tokens(swaps) && t != output && TokenOutput(swaps, t, output, {}).Some?
    requires u == WalkPrices(swaps, output)
    ensures PricedAtAverage(swaps, u, t)
  {
    hide Equals, WalkPrice, Worth;
    WalkGroupValue(swaps, |swaps|, output, t, u);
    assert swaps[..|swaps|] == swaps && {} + {t} == {t};
    var w := WalkWorth(swaps, output, t, u);
    SameValue(TokenOutput(swaps, t, output, {}).value, GroupValue(swaps, t, u), w);
  }

  lemma SameValue(f: Fraction, x: real, y: real)
    requires Equals(f, x) && Equals(f, y)
    ensures x == y
  {
    assert (x - y) * f.den as real == 0.0;
    ZeroFactor(x - y, f.den as real);
  }

  lemma WalkWorth(swaps: seq<Swap>, output: Token, t: Token, u: Token -> real) returns (w: real)
    requires ZeroInZeroOut(swaps) && t in Tokens(swaps) && t != output
    requires TokenOutput(swaps, t, output, {}).Some? && u == WalkPrices(swaps, output)
    ensures Worth(swaps, u, t, w) && Equals(TokenOutput(swaps, t, output, {}).value, w)
  {
    hide TokenOutput, TokenOutputPrefix, Equals, TotalIn;
    ZeroOutNeverDry(swaps, output);
    ValueIffReaches(swaps, t, output, {});
    var f := TokenOutput(swaps, t, output, {}).value;
    if f.num > 0 {
      ReachingIsTaken(swaps, t, output);
    }
    if TotalIn(swaps, t) > 0 {
      w := f.num as real / f.den as real;
      QuotientEquals(f, w);
      QuotientTimes(w, TotalIn(swaps, t) as real);
    } else {
      w := 0.0;
      NothingEquals(f);
    }
  }

  lemma QuotientEquals(f: Fraction, w: real)
    requires f.den > 0 && w == f.num as real / f.den as real
    ensures Equals(f, w)
  {}

  lemma NothingEquals(f: Fraction)
    requires f.den > 0 && f.num == 0
    ensures Equals(f, 0.0)
  {}

  lemma {:induction false} WalkGroupValue(swaps: seq<Swap>, k: nat, output: Token, t: Token, u: Token -> real)
    requires ZeroInZeroOut(swaps)
    requires k <= |swaps| && t in Tokens(swaps) && t != output && u == WalkPrices(swaps, output)
    requires TokenOutput(swaps, t, output, {}).Some?
    ensures TokenOutputPrefix(swaps, k, t, output, {t}).Some?
    ensures Equals(TokenOutputPrefix(swaps, k, t, output, {t}).value, GroupValue(swaps[..k], t, u))
  {
    hide AddFraction, SwapFraction, Equals, Worth;
    assert {} + {t} == {t} && TokenOutput(swaps, t, output, {}).Some?;
    ZeroEquals();
    if TokenOutputPrefix(swaps, k, t, output, {t}).None? {
      NonePersists(swaps, k, |swaps|, t, output, {t});
      assert false;
    } else if k > 0 {
      WalkGroupValue(swaps, k - 1, output, t, u);
      var swap := swaps[k - 1];
      if swap.tokenIn == t {
        var before := TokenOutputPrefix(swaps, k - 1, t, output, {t}).value;
        var next := if swap.tokenOut == output then None else TokenOutput(swaps, swap.tokenOut, output, {t});
        var w := 0.0;
        if swap.tokenOut != output {
          PathDoesNotMatter(swaps, swap.tokenOut, output, {}, {t});
          w := WalkWorth(swaps, output, swap.tokenOut, u);
        }
        AddSwap(swaps, k, output, before, next, u, w);
      } else {
        GroupValueStep(swaps, k, t, u);
      }
    }
  }

  lemma {:induction false} NoTakersNoValue(swaps: seq<Swap>, t: Token, u: Token -> real)
    requires forall s | s in swaps :: s.tokenIn != t
    ensures GroupValue(swaps, t, u) == 0.0
  {
    if |swaps| > 0 {
      NoTakersNoValue(swaps[..|swaps| - 1], t, u);
    }
  }

  /** The leg's fraction is its own output at the average price of its token. */
  lemma LegFractionIsValue(swaps: seq<Swap>, leg: Swap, output: Token, u: Token -> real, v: real)
    requires u(output) == 1.0 && (leg.tokenOut != output ==> AveragePricesFrom(swaps, leg.tokenOut, output, u))
    requires LegOutput(swaps, leg, output).Some?
    requires v == leg.amountOut as real * u(leg.tokenOut)
    ensures Equals(LegOutput(swaps, leg, output).value, v)
  {
    hide TokenOutput, TokenOutputPrefix, Visits;
    var consumed := TotalIn(swaps, leg.tokenOut);
    VisitsItself(swaps, leg.tokenOut, output);
    assert leg.tokenOut != output ==> PricedAtAverage(swaps, u, leg.tokenOut);
    if leg.tokenOut != output && consumed > 0 {
      TakenTokenIsKnown(swaps, leg.tokenOut);
      FractionIsValue(swaps, leg.tokenOut, output, {}, u);
      var f := TokenOutput(swaps, leg.tokenOut, output, {}).value;
      ScaleIsExact(leg.amountOut, f, consumed, u(leg.tokenOut), GroupValue(swaps, leg.tokenOut, u), v);
      assert f.den * consumed > 0;
    }
  }
}
