/**
 How much route output a token's flow produces, as an exact integer fraction: the recursive walk of
 the swap graph with a path of visited tokens, as a function and as it runs.
 */
module RouteValue {
  import opened Wrappers
  import opened Routes

  datatype Fraction = Fraction(num: nat, den: nat)

  // ---------------------------------------------------------------- the walk, as a function

  /** The route output that the swaps taking `token` produce from it; `None` if they loop back. */
  function TokenOutput(swaps: seq<Swap>, token: Token, output: Token, path: set<Token>): Option<Fraction>
    requires token in Tokens(swaps)
    decreases |Tokens(swaps) - path|, 0
  {
    if token in path then None
    else
      SmallerRemainder(Tokens(swaps), path, token);
      TokenOutputPrefix(swaps, |swaps|, token, output, path + {token})
  }

  /** The sum over the first `k` swaps, `path` already holding `token`. */
  function TokenOutputPrefix(swaps: seq<Swap>, k: nat, token: Token, output: Token, path: set<Token>): Option<Fraction>
    requires k <= |swaps|
    decreases |Tokens(swaps) - path|, k
  {
    if k == 0 then Some(Fraction(0, 1))
    else
      var before := TokenOutputPrefix(swaps, k - 1, token, output, path);
      if before.None? || swaps[k - 1].tokenIn != token then before
      else
        var swap := swaps[k - 1];
        var next := if swap.tokenOut == output then None else TokenOutput(swaps, swap.tokenOut, output, path);
        if swap.tokenOut != output && next.None? then None
        else Some(AddFraction(before.value, SwapFraction(swaps, swap, output, next)))
  }

  /** What one swap's output produces, given what its output token produces as a whole. */
  function SwapFraction(swaps: seq<Swap>, swap: Swap, output: Token, next: Option<Fraction>): Fraction
    requires swap.tokenOut != output ==> next.Some?
  {
    if swap.tokenOut == output then Fraction(swap.amountOut, 1)
    else Fraction(swap.amountOut * next.value.num, next.value.den * TotalIn(swaps, swap.tokenOut))
  }

  /** Adds two fractions, leaving out a zero term. */
  function AddFraction(f: Fraction, term: Fraction): Fraction {
    if term.num == 0 then f
    else Fraction(f.num * term.den + term.num * f.den, f.den * term.den)
  }

  /** The route output that `leg`'s output produces; `None` when the swaps after it loop back. */
  function LegOutput(swaps: seq<Swap>, leg: Swap, output: Token): Option<Fraction> {
    if leg.tokenOut == output then Some(Fraction(leg.amountOut, 1))
    else
      var consumed := TotalIn(swaps, leg.tokenOut);
      if consumed == 0 then Some(Fraction(0, 1))
      else
        TakenTokenIsKnown(swaps, leg.tokenOut);
        match TokenOutput(swaps, leg.tokenOut, output, {})
        case None => None
        case Some(f) => Some(Fraction(leg.amountOut * f.num, f.den * consumed))
  }

  lemma SmallerRemainder(all: set<Token>, path: set<Token>, token: Token)
    requires token in all && token !in path
    ensures |all - (path + {token})| < |all - path|
  {
    assert all - (path + {token}) == (all - path) - {token};
  }

  lemma TakenTokenIsKnown(swaps: seq<Swap>, token: Token)
    requires TotalIn(swaps, token) > 0
    ensures token in Tokens(swaps)
  {
    if forall s | s in swaps :: s.tokenIn != token {
      TotalInNeedsTaker(swaps, token);
    }
  }

  // ---------------------------------------------------------------- the walk, as the source runs it

  function Elements(path: seq<Token>): set<Token> {
    set t | t in path
  }

  /**
   The recursion with its explicit path stack. A success restores the stack.
   */
  method TokenRouteOutput(swaps: seq<Swap>, token: Token, output: Token, path: seq<Token>)
    returns (r: Option<Fraction>, path': seq<Token>)
    requires token in Tokens(swaps)
    ensures r == TokenOutput(swaps, token, output, Elements(path))
    ensures r.Some? ==> path' == path
    ensures path <= path'
    decreases |Tokens(swaps) - Elements(path)|
  {
    hide TokenOutputPrefix, Tokens, TotalIn;
    if token in path {
      return None, path;
    }
    path' := path + [token];
    ghost var here := Elements(path) + {token};
    assert Elements(path') == here;
    SmallerRemainder(Tokens(swaps), Elements(path), token);
    var numerator: nat, denominator: nat := 0, 1;
    PrefixStart(swaps, token, output, here);
    for i := 0 to |swaps|
      invariant path' == path + [token]
      invariant TokenOutputPrefix(swaps, i, token, output, here) == Some(Fraction(numerator, denominator))
    {
      var swap := swaps[i];
      PrefixStep(swaps, i, token, output, here);
      if swap.tokenIn == token {
        var swapNumerator: nat, swapDenominator: nat;
        if swap.tokenOut == output {
          swapNumerator, swapDenominator := swap.amountOut, 1;
        } else {
          var consumed := TotalIn(swaps, swap.tokenOut);
          PaidTokenIsKnown(swaps, i);
          var next;
          next, path' := TokenRouteOutput(swaps, swap.tokenOut, output, path');
          if next.None? {
            NonePersists(swaps, i + 1, |swaps|, token, output, here);
            return None, path';
          }
          swapNumerator, swapDenominator := swap.amountOut * next.value.num, next.value.den * consumed;
        }
        assert TokenOutputPrefix(swaps, i + 1, token, output, here)
            == Some(AddFraction(Fraction(numerator, denominator), Fraction(swapNumerator, swapDenominator)));
        if swapNumerator != 0 {
          numerator := numerator * swapDenominator + swapNumerator * denominator;
          denominator := denominator * swapDenominator;
        }
      }
    }
    r := Some(Fraction(numerator, denominator));
    path' := path'[..|path'| - 1];
  }

  lemma PaidTokenIsKnown(swaps: seq<Swap>, i: nat)
    requires i < |swaps|
    ensures swaps[i].tokenOut in Tokens(swaps)
  {}

  lemma PrefixStart(swaps: seq<Swap>, token: Token, output: Token, path: set<Token>)
    ensures TokenOutputPrefix(swaps, 0, token, output, path) == Some(Fraction(0, 1))
  {}

  lemma PrefixStep(swaps: seq<Swap>, i: nat, token: Token, output: Token, path: set<Token>)
    requires i < |swaps| && TokenOutputPrefix(swaps, i, token, output, path).Some?
    ensures swaps[i].tokenIn != token ==>
              TokenOutputPrefix(swaps, i + 1, token, output, path) == TokenOutputPrefix(swaps, i, token, output, path)
    ensures swaps[i].tokenIn == token && swaps[i].tokenOut == output ==>
              TokenOutputPrefix(swaps, i + 1, token, output, path)
              == Some(AddFraction(TokenOutputPrefix(swaps, i, token, output, path).value,
                                  SwapFraction(swaps, swaps[i], output, None)))
    ensures swaps[i].tokenIn == token && swaps[i].tokenOut != output ==>
              var next := TokenOutput(swaps, swaps[i].tokenOut, output, path);
              TokenOutputPrefix(swaps, i + 1, token, output, path)
              == if next.None? then None
                 else Some(AddFraction(TokenOutputPrefix(swaps, i, token, output, path).value,
                                       SwapFraction(swaps, swaps[i], output, next)))
  {
    hide AddFraction, SwapFraction;
  }

  /** Once a swap loops back the whole sum is `None`. */
  lemma {:induction false} NonePersists(swaps: seq<Swap>, j: nat, k: nat, token: Token, output: Token, path: set<Token>)
    requires j <= k <= |swaps|
    requires TokenOutputPrefix(swaps, j, token, output, path).None?
    ensures TokenOutputPrefix(swaps, k, token, output, path).None?
  {
    if j < k {
      NonePersists(swaps, j, k - 1, token, output, path);
    }
  }
}
