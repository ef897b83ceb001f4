/**
 Which routes the walk rejects: exactly those with a looping walk of swaps. Which legs reach the route's
 output token, and on which routes every denominator is positive.
 */
module RouteLoops {
  import opened Wrappers
  import opened Routes
  import opened RouteValue

  // ---------------------------------------------------------------- loops

  ghost predicate Edge(swaps: seq<Swap>, x: Token, y: Token) {
    exists s :: s in swaps && s.tokenIn == x && s.tokenOut == y
  }

  /** Tokens visited by following swaps, never onto the output token. */
  ghost predicate IsWalk(swaps: seq<Swap>, output: Token, w: seq<Token>) {
    && |w| > 0
    && forall j | 0 < j < |w| :: Edge(swaps, w[j - 1], w[j]) && w[j] != output
  }

  /** The walk ends on a token in `path` or on one it already visited. */
  ghost predicate Revisits(w: seq<Token>, path: set<Token>)
    requires |w| > 0
  {
    w[|w| - 1] in path || w[|w| - 1] in w[..|w| - 1]
  }

  ghost predicate LoopsFrom(swaps: seq<Swap>, token: Token, output: Token, path: set<Token>) {
    exists w :: IsWalk(swaps, output, w) && w[0] == token && Revisits(w, path)
  }

  /** The walk of the swap graph fails exactly when some walk of swaps revisits a token. */
  lemma LoopDetectionExact(swaps: seq<Swap>, token: Token, output: Token, path: set<Token>)
    requires token in Tokens(swaps)
    ensures TokenOutput(swaps, token, output, path).None? <==> LoopsFrom(swaps, token, output, path)
  {
    if TokenOutput(swaps, token, output, path).None? {
      var w := LoopWitness(swaps, token, output, path);
    }
    forall w | IsWalk(swaps, output, w) && w[0] == token && Revisits(w, path)
      ensures TokenOutput(swaps, token, output, path).None?
    {
      WalkIsRejected(swaps, output, path, w);
    }
  }

  lemma {:induction false} LoopWitness(swaps: seq<Swap>, token: Token, output: Token, path: set<Token>)
    returns (w: seq<Token>)
    requires token in Tokens(swaps)
    requires TokenOutput(swaps, token, output, path).None?
    ensures IsWalk(swaps, output, w) && w[0] == token && Revisits(w, path)
    decreases |Tokens(swaps) - path|
  {
    if token in path {
      w := [token];
    } else {
      SmallerRemainder(Tokens(swaps), path, token);
      var k := FirstNone(swaps, |swaps|, token, output, path + {token});
      var next := LoopWitness(swaps, swaps[k].tokenOut, output, path + {token});
      w := [token] + next;
      assert Edge(swaps, token, next[0]);
      forall j | 0 < j < |w|
        ensures Edge(swaps, w[j - 1], w[j]) && w[j] != output
      {
        if j > 1 {
          assert w[j - 1] == next[j - 2] && w[j] == next[j - 1];
        }
      }
      assert w[|w| - 1] == next[|next| - 1];
      if next[|next| - 1] in next[..|next| - 1] {
        assert w[..|w| - 1] == [token] + next[..|next| - 1];
      } else {
        assert next[|next| - 1] in path + {token};
        if next[|next| - 1] == token {
          assert w[..|w| - 1][0] == token;
        }
      }
    }
  }

  /** The swap at which the sum turns `None`. */
  lemma {:induction false} FirstNone(swaps: seq<Swap>, k: nat, token: Token, output: Token, path: set<Token>)
    returns (i: nat)
    requires k <= |swaps|
    requires TokenOutputPrefix(swaps, k, token, output, path).None?
    ensures i < k && swaps[i].tokenIn == token && swaps[i].tokenOut != output
    ensures TokenOutput(swaps, swaps[i].tokenOut, output, path).None?
  {
    if TokenOutputPrefix(swaps, k - 1, token, output, path).None? {
      i := FirstNone(swaps, k - 1, token, output, path);
    } else {
      i := k - 1;
    }
  }

  lemma {:induction false} WalkIsRejected(swaps: seq<Swap>, output: Token, path: set<Token>, w: seq<Token>)
    requires IsWalk(swaps, output, w) && Revisits(w, path) && w[0] in Tokens(swaps)
    ensures TokenOutput(swaps, w[0], output, path).None?
    decreases |w|
  {
    if w[0] !in path {
      assert |w| > 1;
      assert Edge(swaps, w[1 - 1], w[1]);
      var i :| 0 <= i < |swaps| && swaps[i].tokenIn == w[0] && swaps[i].tokenOut == w[1];
      var rest := w[1..];
      assert rest[0] == w[1] != output;
      forall j | 0 < j < |rest|
        ensures Edge(swaps, rest[j - 1], rest[j]) && rest[j] != output
      {
        assert rest[j - 1] == w[j] && rest[j] == w[j + 1];
      }
      assert rest[|rest| - 1] == w[|w| - 1];
      assert w[..|w| - 1] == [w[0]] + rest[..|rest| - 1];
      WalkIsRejected(swaps, output, path + {w[0]}, rest);
      NonePersists(swaps, i + 1, |swaps|, w[0], output, path + {w[0]});
    }
  }

  /** A leg's value is undefined exactly when its output is taken on, and taken on in a loop. */
  lemma LegLoopExact(swaps: seq<Swap>, leg: Swap, output: Token)
    ensures LegOutput(swaps, leg, output).None? <==>
            && leg.tokenOut != output
            && TotalIn(swaps, leg.tokenOut) > 0
            && LoopsFrom(swaps, leg.tokenOut, output, {})
  {
    if leg.tokenOut != output && TotalIn(swaps, leg.tokenOut) > 0 {
      TakenTokenIsKnown(swaps, leg.tokenOut);
      LoopDetectionExact(swaps, leg.tokenOut, output, {});
    }
  }

  /** On a topologically ordered route no walk loops, however often branches split and merge. */
  lemma TopologicalNeverLoops(swaps: seq<Swap>, token: Token, output: Token)
    requires Topological(swaps) && token in Tokens(swaps)
    ensures TokenOutput(swaps, token, output, {}).Some?
  {
    LoopDetectionExact(swaps, token, output, {});
    forall w | IsWalk(swaps, output, w)
      ensures !Revisits(w, {})
    {
      if Revisits(w, {}) {
        var j :| 0 <= j < |w| - 1 && w[j] == w[|w| - 1];
        var first, last := WalkAdvances(swaps, output, w, j, |w| - 1);
        assert false;
      }
    }
  }

  /** Along a topologically ordered route a walk only moves to later swaps. */
  lemma {:induction false} WalkAdvances(swaps: seq<Swap>, output: Token, w: seq<Token>, i: nat, j: nat)
    returns (first: nat, last: nat)
    requires Topological(swaps) && IsWalk(swaps, output, w) && i < j < |w|
    ensures first <= last < |swaps|
    ensures swaps[first].tokenIn == w[i] && swaps[last].tokenOut == w[j]
    decreases j
  {
    assert Edge(swaps, w[j - 1], w[j]);
    var k :| 0 <= k < |swaps| && swaps[k].tokenIn == w[j - 1] && swaps[k].tokenOut == w[j];
    if i == j - 1 {
      return k, k;
    }
    var f, l := WalkAdvances(swaps, output, w, i, j - 1);
    assert swaps[l].tokenOut == swaps[k].tokenIn;
    return f, k;
  }

  // ---------------------------------------------------------------- walks that succeed

  /** A walk that succeeds gives the same fraction on any smaller path. */
  lemma {:induction false} PathDoesNotMatter(
    swaps: seq<Swap>, token: Token, output: Token, p: set<Token>, q: set<Token>)
    requires token in Tokens(swaps) && p <= q && TokenOutput(swaps, token, output, q).Some?
    ensures TokenOutput(swaps, token, output, p) == TokenOutput(swaps, token, output, q)
    decreases |Tokens(swaps) - q|, 0
  {
    SmallerRemainder(Tokens(swaps), q, token);
    PathDoesNotMatterPrefix(swaps, |swaps|, token, output, p + {token}, q + {token});
  }

  lemma {:induction false} PathDoesNotMatterPrefix(
    swaps: seq<Swap>, k: nat, token: Token, output: Token, p: set<Token>, q: set<Token>)
    requires k <= |swaps| && p <= q && TokenOutputPrefix(swaps, k, token, output, q).Some?
    ensures TokenOutputPrefix(swaps, k, token, output, p) == TokenOutputPrefix(swaps, k, token, output, q)
    decreases |Tokens(swaps) - q|, k
  {
    if k > 0 {
      PathDoesNotMatterPrefix(swaps, k - 1, token, output, p, q);
      if swaps[k - 1].tokenIn == token && swaps[k - 1].tokenOut != output {
        PathDoesNotMatter(swaps, swaps[k - 1].tokenOut, output, p, q);
      }
    }
  }

  /** The walk succeeds from every token but the output. */
  ghost predicate LoopFree(swaps: seq<Swap>, output: Token) {
    forall t | t in Tokens(swaps) && t != output :: TokenOutput(swaps, t, output, {}).Some?
  }

  // ---------------------------------------------------------------- reaching the output

  /** Swaps, by index, that carry a positive amount from `from` to the output token. */
  ghost predicate IsChain(swaps: seq<Swap>, from: Token, output: Token, c: seq<nat>)
    decreases |c|
  {
    if from == output then c == []
    else
      && c != [] && c[0] < |swaps|
      && swaps[c[0]].tokenIn == from && swaps[c[0]].amountOut > 0
      && IsChain(swaps, swaps[c[0]].tokenOut, output, c[1..])
  }

  ghost predicate Reaches(swaps: seq<Swap>, from: Token, output: Token) {
    exists c :: IsChain(swaps, from, output, c)
  }

  /**
   Some swap, not from the output token, pays an amount into a token that nothing is taken of but from
   which positive swaps lead to the output.
   */
  ghost predicate DryPayment(swaps: seq<Swap>, output: Token, s: Swap) {
    && s.tokenIn != output && s.amountOut > 0 && s.tokenOut != output
    && TotalIn(swaps, s.tokenOut) == 0 && Reaches(swaps, s.tokenOut, output)
  }

  ghost predicate NeverDry(swaps: seq<Swap>, output: Token) {
    forall s | s in swaps :: !DryPayment(swaps, output, s)
  }

  /** If pools that get nothing pay nothing, no token is paid into dry. */
  lemma ZeroOutNeverDry(swaps: seq<Swap>, output: Token)
    requires ZeroInZeroOut(swaps)
    ensures NeverDry(swaps, output)
  {
    forall s | s in swaps
      ensures !DryPayment(swaps, output, s)
    {
      if s.tokenOut != output && Reaches(swaps, s.tokenOut, output) {
        ReachingIsTaken(swaps, s.tokenOut, output);
      }
    }
  }

  lemma ReachingIsTaken(swaps: seq<Swap>, token: Token, output: Token)
    requires ZeroInZeroOut(swaps) && token != output && Reaches(swaps, token, output)
    ensures TotalIn(swaps, token) > 0
  {
    hide Reaches, TotalIn;
    FirstStep(swaps, token, output);
    var i :| 0 <= i < |swaps| && ReachesVia(swaps, i, token, output);
    assert swaps[i] in swaps;
    TotalInCoversSwap(swaps, i);
  }

  /** Where nothing is paid into a dry token, every denominator is positive. */
  lemma DenominatorPositive(swaps: seq<Swap>, token: Token, output: Token, path: set<Token>)
    requires token in Tokens(swaps) && token != output && NeverDry(swaps, output)
    requires TokenOutput(swaps, token, output, path).Some?
    ensures TokenOutput(swaps, token, output, path).value.den > 0
  {
    hide TokenOutput, NeverDry;
    ValueIffReaches(swaps, token, output, path);
  }

  /** A token's flow has value exactly when positive swaps carry it to the output token. */
  lemma {:induction false} ValueIffReaches(swaps: seq<Swap>, token: Token, output: Token, path: set<Token>)
    requires token in Tokens(swaps) && token != output && NeverDry(swaps, output)
    requires TokenOutput(swaps, token, output, path).Some?
    ensures TokenOutput(swaps, token, output, path).value.den > 0
    ensures TokenOutput(swaps, token, output, path).value.num > 0 <==> Reaches(swaps, token, output)
    decreases |Tokens(swaps) - path|, 0
  {
    SmallerRemainder(Tokens(swaps), path, token);
    ValueIffReachesPrefix(swaps, |swaps|, token, output, path + {token});
    FirstStep(swaps, token, output);
  }

  ghost predicate ReachesVia(swaps: seq<Swap>, i: nat, token: Token, output: Token)
    requires i < |swaps|
  {
    swaps[i].tokenIn == token && swaps[i].amountOut > 0 && Reaches(swaps, swaps[i].tokenOut, output)
  }

  /** One of the first `k` swaps starts a chain from `token`. */
  ghost predicate ReachesWithin(swaps: seq<Swap>, k: nat, token: Token, output: Token)
    requires k <= |swaps|
  {
    exists i :: 0 <= i < k && ReachesVia(swaps, i, token, output)
  }

  lemma ReachesWithinStep(swaps: seq<Swap>, k: nat, token: Token, output: Token)
    requires 0 < k <= |swaps|
    ensures ReachesWithin(swaps, k, token, output)
            <==> ReachesWithin(swaps, k - 1, token, output) || ReachesVia(swaps, k - 1, token, output)
  {
    hide ReachesVia;
    if ReachesWithin(swaps, k, token, output) {
      var i :| 0 <= i < k && ReachesVia(swaps, i, token, output);
      assert i < k - 1 ==> ReachesWithin(swaps, k - 1, token, output);
    }
  }

  lemma {:induction false} ValueIffReachesPrefix(
    swaps: seq<Swap>, k: nat, token: Token, output: Token, path: set<Token>)
    requires k <= |swaps| && token != output && NeverDry(swaps, output)
    requires TokenOutputPrefix(swaps, k, token, output, path).Some?
    ensures TokenOutputPrefix(swaps, k, token, output, path).value.den > 0
    ensures TokenOutputPrefix(swaps, k, token, output, path).value.num > 0 <==> ReachesWithin(swaps, k, token, output)
    decreases |Tokens(swaps) - path|, k
  {
    hide AddFraction, SwapFraction, Reaches, TotalIn;
    if k == 0 {
      assert !ReachesWithin(swaps, 0, token, output);
    } else {
      hide ReachesWithin;
      ValueIffReachesPrefix(swaps, k - 1, token, output, path);
      ReachesWithinStep(swaps, k, token, output);
      var swap := swaps[k - 1];
      if swap.tokenIn == token {
        var next := if swap.tokenOut == output then None else TokenOutput(swaps, swap.tokenOut, output, path);
        if swap.tokenOut == output {
          OutputReachesItself(swaps, output);
        } else {
          ValueIffReaches(swaps, swap.tokenOut, output, path);
        }
        assert swap in swaps && !DryPayment(swaps, output, swap);
        TermPositive(swaps, swap, output, next);
        PositiveSum(TokenOutputPrefix(swaps, k - 1, token, output, path).value,
                    SwapFraction(swaps, swap, output, next));
      }
    }
  }

  lemma OutputReachesItself(swaps: seq<Swap>, output: Token)
    ensures Reaches(swaps, output, output)
  {
    assert IsChain(swaps, output, output, []);
  }

  lemma TermPositive(swaps: seq<Swap>, swap: Swap, output: Token, next: Option<Fraction>)
    requires swap.tokenOut != output ==>
               && next.Some? && next.value.den > 0
               && (swap.amountOut > 0 && next.value.num > 0 ==> TotalIn(swaps, swap.tokenOut) > 0)
    ensures var term := SwapFraction(swaps, swap, output, next);
            && (term.num > 0 <==> swap.amountOut > 0 && (swap.tokenOut == output || next.value.num > 0))
            && (term.num > 0 ==> term.den > 0)
  {
    if swap.tokenOut != output && swap.amountOut > 0 && next.value.num > 0 {
      assert swap.amountOut * next.value.num > 0;
      assert next.value.den * TotalIn(swaps, swap.tokenOut) > 0;
    }
  }

  lemma PositiveSum(f: Fraction, term: Fraction)
    requires f.den > 0 && (term.num > 0 ==> term.den > 0)
    ensures AddFraction(f, term).num > 0 <==> f.num > 0 || term.num > 0
    ensures AddFraction(f, term).den > 0
  {
    if term.num > 0 {
      assert term.num * f.den > 0 && f.num * term.den >= 0;
      assert f.den * term.den > 0;
    }
  }

  /** A chain from a token other than the output begins with one swap. */
  lemma FirstStep(swaps: seq<Swap>, token: Token, output: Token)
    requires token != output
    ensures Reaches(swaps, token, output) <==> ReachesWithin(swaps, |swaps|, token, output)
  {
    forall c | IsChain(swaps, token, output, c)
      ensures ReachesVia(swaps, c[0], token, output)
    {
      assert IsChain(swaps, swaps[c[0]].tokenOut, output, c[1..]);
    }
    forall i | 0 <= i < |swaps| && ReachesVia(swaps, i, token, output)
      ensures Reaches(swaps, token, output)
    {
      var c :| IsChain(swaps, swaps[i].tokenOut, output, c);
      assert ([i] + c)[1..] == c;
      assert IsChain(swaps, token, output, [i] + c);
    }
  }

  // ---------------------------------------------------------------- when denominators are positive

  /** Every token but the output has a fraction with a positive denominator. */
  ghost predicate AllPositive(swaps: seq<Swap>, output: Token) {
    forall t | t in Tokens(swaps) && t != output :: PositiveFraction(TokenOutput(swaps, t, output, {}))
  }

  ghost predicate PositiveFraction(f: Option<Fraction>) {
    f.Some? && f.value.den > 0
  }

  /** On a loop-free route every denominator is positive exactly when nothing is paid into a dry token. */
  lemma DenominatorsPositiveIff(swaps: seq<Swap>, output: Token)
    requires LoopFree(swaps, output)
    ensures AllPositive(swaps, output) <==> NeverDry(swaps, output)
  {
    hide TokenOutput, DryPayment;
    if NeverDry(swaps, output) {
      forall t | t in Tokens(swaps) && t != output
        ensures PositiveFraction(TokenOutput(swaps, t, output, {}))
      {
        DenominatorPositive(swaps, t, output, {});
      }
    } else {
      var s :| s in swaps && DryPayment(swaps, output, s);
      var i :| 0 <= i < |swaps| && swaps[i] == s;
      if AllPositive(swaps, output) {
        PositiveNotDry(swaps, output, i);
      }
    }
  }

  /** A denominator that is zero stays zero. */
  lemma {:induction false} ZeroStays(swaps: seq<Swap>, j: nat, k: nat, token: Token, output: Token, path: set<Token>)
    requires j <= k <= |swaps| && TokenOutputPrefix(swaps, k, token, output, path).Some?
    requires TokenOutputPrefix(swaps, k, token, output, path).value.den > 0
    ensures TokenOutputPrefix(swaps, j, token, output, path).Some?
    ensures TokenOutputPrefix(swaps, j, token, output, path).value.den > 0
  {
    hide SwapFraction, TokenOutput;
    if j < k {
      ZeroStays(swaps, j, k - 1, token, output, path);
    }
  }

  lemma PositiveNotDry(swaps: seq<Swap>, output: Token, i: nat)
    requires AllPositive(swaps, output) && i < |swaps|
    ensures !DryPayment(swaps, output, swaps[i])
  {
    if DryPayment(swaps, output, swaps[i]) {
      var x, t := swaps[i].tokenIn, swaps[i].tokenOut;
      assert swaps[i] in swaps && x in Tokens(swaps) && t in Tokens(swaps);
      assert PositiveFraction(TokenOutput(swaps, x, output, {}));
      assert {} + {x} == {x};
      hide Reaches, TotalIn;
      ZeroStays(swaps, i + 1, |swaps|, x, output, {x});
      ReachedIsPositive(swaps, t, output, {x});
    }
  }

  /** Where all denominators are positive, a token that reaches the output has a positive numerator. */
  lemma {:induction false} ReachedIsPositive(swaps: seq<Swap>, token: Token, output: Token, path: set<Token>)
    requires AllPositive(swaps, output) && token in Tokens(swaps) && token != output
    requires TokenOutput(swaps, token, output, path).Some? && Reaches(swaps, token, output)
    ensures TokenOutput(swaps, token, output, path).value.num > 0
    decreases |Tokens(swaps) - path|, 0
  {
    hide Reaches;
    PathDoesNotMatter(swaps, token, output, {}, path);
    assert PositiveFraction(TokenOutput(swaps, token, output, {}));
    SmallerRemainder(Tokens(swaps), path, token);
    FirstStep(swaps, token, output);
    var i :| 0 <= i < |swaps| && ReachesVia(swaps, i, token, output);
    ReachedIsPositivePrefix(swaps, |swaps|, token, output, path + {token}, i);
  }

  lemma {:induction false} ReachedIsPositivePrefix(
    swaps: seq<Swap>, k: nat, token: Token, output: Token, path: set<Token>, i: nat)
    requires AllPositive(swaps, output) && i < k <= |swaps| && token != output && ReachesVia(swaps, i, token, output)
    requires TokenOutputPrefix(swaps, k, token, output, path).Some?
    requires TokenOutputPrefix(swaps, k, token, output, path).value.den > 0
    ensures TokenOutputPrefix(swaps, k, token, output, path).value.num > 0
    decreases |Tokens(swaps) - path|, k
  {
    hide Reaches, TotalIn, SwapFraction, AddFraction, AllPositive;
    ZeroStays(swaps, k - 1, k, token, output, path);
    var swap, before := swaps[k - 1], TokenOutputPrefix(swaps, k - 1, token, output, path).value;
    if i < k - 1 {
      ReachedIsPositivePrefix(swaps, k - 1, token, output, path, i);
    }
    if swap.tokenIn == token {
      var next := if swap.tokenOut == output then None else TokenOutput(swaps, swap.tokenOut, output, path);
      if i == k - 1 && swap.tokenOut != output {
        ReachedIsPositive(swaps, swap.tokenOut, output, path);
      }
      SumStaysPositive(before, SwapFraction(swaps, swap, output, next));
      if i == k - 1 {
        TermHasValue(swaps, swap, output, next);
      }
    }
  }

  lemma SumStaysPositive(f: Fraction, term: Fraction)
    requires f.den > 0 && AddFraction(f, term).den > 0
    ensures f.num > 0 || term.num > 0 ==> AddFraction(f, term).num > 0
  {
    if term.num > 0 {
      assert term.den > 0;
      assert term.num * f.den > 0 && f.num * term.den >= 0;
    }
  }

  lemma TermHasValue(swaps: seq<Swap>, swap: Swap, output: Token, next: Option<Fraction>)
    requires swap.amountOut > 0 && (swap.tokenOut != output ==> next.Some? && next.value.num > 0)
    ensures SwapFraction(swaps, swap, output, next).num > 0
  {
    if swap.tokenOut != output {
      assert swap.amountOut * next.value.num > 0;
    }
  }

  // ---------------------------------------------------------------- the shape of an exclusive route

  datatype Shape = Valid | NoExclusiveLeg | MultipleLegs | DoesNotReachOutput

  /** The indices of the exclusive legs, in route order. */
  function ExclusiveLegs(swaps: seq<Swap>): (legs: seq<nat>)
    ensures forall i :: i in legs <==> 0 <= i < |swaps| && swaps[i].exclusive
    ensures forall i, j | 0 <= i < j < |legs| :: legs[i] < legs[j]
  {
    if |swaps| == 0 then []
    else
      var before := ExclusiveLegs(swaps[..|swaps| - 1]);
      assert forall i | 0 <= i < |before| :: before[i] in before;
      if swaps[|swaps| - 1].exclusive then before + [|swaps| - 1] else before
  }

  function ExclusiveRouteShape(swaps: seq<Swap>, output: Token): Shape {
    var legs := ExclusiveLegs(swaps);
    if |legs| == 0 then NoExclusiveLeg
    else if |legs| > 1 then MultipleLegs
    else
      assert legs[0] in legs;
      var value := LegOutput(swaps, swaps[legs[0]], output);
      if value.Some? && value.value.num > 0 then Valid else DoesNotReachOutput
  }

  /** The leg pays the output token itself, or it loops nowhere and positive swaps carry it there. */
  ghost predicate LegReachesOutput(swaps: seq<Swap>, leg: Swap, output: Token) {
    && leg.amountOut > 0
    && (leg.tokenOut == output ||
        (!LoopsFrom(swaps, leg.tokenOut, output, {}) && Reaches(swaps, leg.tokenOut, output)))
  }

  lemma LegValueIffReaches(swaps: seq<Swap>, leg: Swap, output: Token)
    requires ZeroInZeroOut(swaps)
    ensures var value := LegOutput(swaps, leg, output);
            (value.Some? && value.value.num > 0) <==> LegReachesOutput(swaps, leg, output)
  {
    LegLoopExact(swaps, leg, output);
    if leg.tokenOut != output {
      if TotalIn(swaps, leg.tokenOut) == 0 {
        FirstStep(swaps, leg.tokenOut, output);
        forall i | 0 <= i < |swaps|
          ensures !ReachesVia(swaps, i, leg.tokenOut, output)
        {
          if swaps[i].tokenIn == leg.tokenOut {
            TotalInCoversSwap(swaps, i);
          }
        }
      } else {
        TakenTokenIsKnown(swaps, leg.tokenOut);
        if TokenOutput(swaps, leg.tokenOut, output, {}).Some? {
          ZeroOutNeverDry(swaps, output);
          ValueIffReaches(swaps, leg.tokenOut, output, {});
        }
      }
    }
  }

  /**
   A route is `Valid` exactly when it has one exclusive leg and that leg reaches the output, and the
   other shapes say which part of that fails.
   */
  lemma ValidIff(swaps: seq<Swap>, output: Token)
    requires ZeroInZeroOut(swaps)
    ensures ExclusiveRouteShape(swaps, output) == NoExclusiveLeg <==> forall s | s in swaps :: !s.exclusive
    ensures ExclusiveRouteShape(swaps, output) == MultipleLegs <==>
            exists i, j :: 0 <= i < j < |swaps| && swaps[i].exclusive && swaps[j].exclusive
    ensures ExclusiveRouteShape(swaps, output) == Valid <==>
            exists e :: && 0 <= e < |swaps| && swaps[e].exclusive
                        && (forall i | 0 <= i < |swaps| && i != e :: !swaps[i].exclusive)
                        && LegReachesOutput(swaps, swaps[e], output)
  {
    var legs := ExclusiveLegs(swaps);
    if |legs| > 0 {
      assert legs[0] in legs;
      LegValueIffReaches(swaps, swaps[legs[0]], output);
    }
    assert forall i | 0 <= i < |swaps| && swaps[i].exclusive :: i in legs;
    if |legs| == 1 {
      assert forall i :: i in legs <==> i == legs[0];
    } else if |legs| > 1 {
      assert legs[1] in legs && legs[0] < legs[1];
    }
  }

  function DryRoute(): seq<Swap> {
    [Swap("leg", 0, 1, 1, 2, 0.0, true, None),
     Swap("mid", 1, 2, 1, 1, 0.0, false, None),
     Swap("dry", 2, 3, 0, 4, 0.0, false, None)]
  }

  lemma DryTotals()
    ensures TotalIn(DryRoute(), 1) == 1 && TotalIn(DryRoute(), 2) == 0
  {
    var swaps := DryRoute();
    assert swaps[..3] == swaps && swaps[..3][..2] == swaps[..2];
    assert swaps[..2][..1] == swaps[..1] && swaps[..1][..0] == [];
    assert TotalIn(swaps[..1], 1) == 0 && TotalIn(swaps[..2], 1) == 1;
    assert TotalIn(swaps[..1], 2) == 0 && TotalIn(swaps[..2], 2) == 0;
  }

  /** A payment into a dry token makes a denominator zero, and the route value would be divided by it. */
  lemma ZeroDenominatorWithoutZeroOut()
    ensures LegOutput(DryRoute(), DryRoute()[0], 3) == Some(Fraction(8, 0))
  {
    var swaps := DryRoute();
    DryTotals();
    hide TotalIn, TokenOutputPrefix;
    assert {} + {1} == {1};
    DryMiddle();
  }

  lemma DryMiddle()
    ensures TokenOutputPrefix(DryRoute(), 3, 1, 3, {1}) == Some(Fraction(4, 0))
  {
    var swaps := DryRoute();
    DryTotals();
    DryTail();
    hide TotalIn, TokenOutputPrefix, TokenOutput;
    PrefixStart(swaps, 1, 3, {1});
    PrefixStep(swaps, 0, 1, 3, {1});
    PrefixStep(swaps, 1, 1, 3, {1});
    PrefixStep(swaps, 2, 1, 3, {1});
  }

  lemma DryTail()
    ensures 2 in Tokens(DryRoute()) && TokenOutput(DryRoute(), 2, 3, {1}) == Some(Fraction(4, 1))
  {
    hide TotalIn;
    var swaps := DryRoute();
    assert swaps[1].tokenOut == 2 && swaps[1] in swaps;
    assert {1} + {2} == {1, 2};
    hide TokenOutputPrefix;
    PrefixStart(swaps, 2, 3, {1, 2});
    PrefixStep(swaps, 0, 2, 3, {1, 2});
    PrefixStep(swaps, 1, 2, 3, {1, 2});
    PrefixStep(swaps, 2, 2, 3, {1, 2});
  }
}
