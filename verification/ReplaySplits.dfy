/**
 What does not change a replay: the order of split swaps within a group, the amounts the swaps carry,
 and replaying a replayed route.
 */
module ReplaySplits {
  import opened Wrappers
  import opened Routes
  import opened Replay
  import opened ReplayFlow
  import opened Division

  // ---------------------------------------------------------------- order within a group

  /** Equal in all that later swaps depend on. */
  ghost predicate SameCore<S>(a: Sim<S>, b: Sim<S>) {
    a.available == b.available && a.branchTotals == b.branchTotals && a.postSwap == b.postSwap && a.gas == b.gas
  }

  /** Two split swaps of one token through different pools, with room for both. */
  ghost predicate Exchangeable<S>(st: Sim<S>, a: Swap, b: Swap) {
    && a.tokenIn == b.tokenIn && a.split > 0.0 && b.split > 0.0
    && a.component != b.component
    && SplitAmount(BranchTotal(st, a.tokenIn), a.split) + SplitAmount(BranchTotal(st, a.tokenIn), b.split)
       <= Balance(st.available, a.tokenIn)
  }

  /** Booking two swaps of one token in either order gives the same balances, snapshots and pools. */
  lemma SettlesCommute<S>(
    st: Sim<S>, a: Swap, amountA: nat, resultA: Outcome<S>, b: Swap, amountB: nat, resultB: Outcome<S>)
    requires a.tokenIn == b.tokenIn && a.component != b.component
    requires amountA + amountB <= Balance(st.available, a.tokenIn)
    ensures var sa, sb := Settle(st, a, amountA, resultA), Settle(st, b, amountB, resultB);
            && amountB <= Balance(sa.available, b.tokenIn) && amountA <= Balance(sb.available, a.tokenIn)
            && SameCore(Settle(sa, b, amountB, resultB), Settle(sb, a, amountA, resultA))
  {
    MovesCommute(st.available, a.tokenIn, amountA, a.tokenOut, resultA.amount, amountB, b.tokenOut, resultB.amount);
    hide Move;
    var sa, sb := Settle(st, a, amountA, resultA), Settle(st, b, amountB, resultB);
    var ab, ba := Settle(sa, b, amountB, resultB), Settle(sb, a, amountA, resultA);
    assert ab.postSwap == ba.postSwap;
    assert ab.branchTotals == ba.branchTotals;
  }

  lemma MovesCommute(
    amounts: map<Token, nat>, t: Token, takenA: nat, toA: Token, paidA: nat, takenB: nat, toB: Token, paidB: nat)
    requires takenA + takenB <= Balance(amounts, t)
    ensures takenB <= Balance(Move(amounts, t, takenA, toA, paidA), t)
    ensures takenA <= Balance(Move(amounts, t, takenB, toB, paidB), t)
    ensures Move(Move(amounts, t, takenA, toA, paidA), t, takenB, toB, paidB)
         == Move(Move(amounts, t, takenB, toB, paidB), t, takenA, toA, paidA)
  {
    hide Move;
    var a, b := Move(amounts, t, takenA, toA, paidA), Move(amounts, t, takenB, toB, paidB);
    MovedTo(amounts, t, takenA, toA, paidA, t);
    MovedTo(amounts, t, takenB, toB, paidB, t);
    var ab, ba := Move(a, t, takenB, toB, paidB), Move(b, t, takenA, toA, paidA);
    forall x
      ensures x in ab <==> x in ba
      ensures Balance(ab, x) == Balance(ba, x)
    {
      MovedTo(amounts, t, takenA, toA, paidA, x);
      MovedTo(amounts, t, takenB, toB, paidB, x);
      MovedTo(a, t, takenB, toB, paidB, x);
      MovedTo(b, t, takenA, toA, paidA, x);
    }
    assert ab.Keys == ba.Keys;
    assert forall x | x in ab :: ab[x] == Balance(ab, x) && ba[x] == Balance(ba, x);
  }

  /** What a move does to the balance of `x`. */
  lemma MovedTo(amounts: map<Token, nat>, from: Token, taken: nat, to: Token, paid: nat, x: Token)
    requires taken <= Balance(amounts, from)
    ensures var after := Move(amounts, from, taken, to, paid);
            && (x in after <==> x in amounts || x == from || x == to)
            && Balance(after, x)
               == Balance(amounts, x) - (if x == from then taken else 0) + (if x == to then paid else 0)
  {}

  /** After one of the two, the other still takes its own part. */
  lemma TakeAfterOther<S>(st: Sim<S>, a: Swap, b: Swap, result: Outcome<S>)
    requires Exchangeable(st, a, b)
    ensures Take(st, a) == SplitAmount(BranchTotal(st, a.tokenIn), a.split)
    ensures Take(st, b) == SplitAmount(BranchTotal(st, a.tokenIn), b.split)
    ensures Take(Settle(st, a, Take(st, a), result), b) == Take(st, b)
  {
    hide SplitAmount;
    var after := Settle(st, a, Take(st, a), result);
    assert BranchTotal(after, a.tokenIn) == BranchTotal(st, a.tokenIn);
    assert Balance(after.available, a.tokenIn) >= Balance(st.available, a.tokenIn) - Take(st, a);
  }

  lemma StepsCommute<S>(st: Sim<S>, a: Swap, b: Swap, market: Market<S>)
    requires Exchangeable(st, a, b)
    requires Step(st, a, market).Ok? && Step(Step(st, a, market).value, b, market).Ok?
    ensures Step(st, b, market).Ok? && Step(Step(st, b, market).value, a, market).Ok?
    ensures var ab := Step(Step(st, a, market).value, b, market).value;
            var ba := Step(Step(st, b, market).value, a, market).value;
            && SameCore(ab, ba)
            && |ab.swaps| == |st.swaps| + 2
            && ab.swaps[..|st.swaps|] == st.swaps
            && ba.swaps == st.swaps + [ab.swaps[|st.swaps| + 1], ab.swaps[|st.swaps|]]
  {
    var poolA := PoolState(st.postSwap, market, a.component).value;
    var resultA := market.pay(a.component, poolA, Take(st, a), a.tokenIn, a.tokenOut).value;
    TakeAfterOther(st, a, b, resultA);
    var poolB := PoolState(st.postSwap, market, b.component).value;
    var resultB := market.pay(b.component, poolB, Take(st, b), b.tokenIn, b.tokenOut).value;
    TakeAfterOther(st, b, a, resultB);
    SettlesCommute(st, a, Take(st, a), resultA, b, Take(st, b), resultB);
    hide Take, SplitAmount, BranchTotal, Balance, Exchangeable, SameCore;
    assert a.component != b.component;
    assert Step(st, a, market) == Ok(Settle(st, a, Take(st, a), resultA));
    assert Step(st, b, market) == Ok(Settle(st, b, Take(st, b), resultB));
  }

  function Exchange(swaps: seq<Swap>, i: nat): seq<Swap>
    requires i + 1 < |swaps|
  {
    swaps[i := swaps[i + 1]][i + 1 := swaps[i]]
  }

  lemma {:induction false} SamePrefixSameRun<S>(a: seq<Swap>, b: seq<Swap>, k: nat, st: Sim<S>, market: Market<S>)
    requires k <= |a| && k <= |b| && a[..k] == b[..k]
    ensures Run(a, k, st, market) == Run(b, k, st, market)
  {
    if k > 0 {
      assert a[..k - 1] == a[..k][..k - 1] == b[..k][..k - 1] == b[..k - 1];
      assert a[k - 1] == a[..k][k - 1] == b[k - 1];
      SamePrefixSameRun(a, b, k - 1, st, market);
    }
  }

  lemma StepDependsOnCore<S>(a: Sim<S>, b: Sim<S>, swap: Swap, market: Market<S>)
    requires SameCore(a, b) && |a.swaps| == |b.swaps|
    ensures var x, y := Step(a, swap, market), Step(b, swap, market);
            && x.Ok? == y.Ok?
            && (x.Ok? ==>
                  && SameCore(x.value, y.value)
                  && |x.value.swaps| == |a.swaps| + 1
                  && x.value.swaps[..|a.swaps|] == a.swaps && y.value.swaps[..|a.swaps|] == b.swaps
                  && |y.value.swaps| == |a.swaps| + 1
                  && x.value.swaps[|a.swaps|] == y.value.swaps[|a.swaps|])
  {
    hide SplitAmount;
    assert Take(a, swap) == Take(b, swap);
  }

  lemma {:induction false} TailDependsOnCore<S>(
    swaps: seq<Swap>, other: seq<Swap>, i: nat, k: nat, input: Token, totalIn: nat, market: Market<S>)
    requires i + 1 < |swaps| && other == Exchange(swaps, i) && i + 2 <= k <= |swaps|
    requires Run(swaps, k, Start(input, totalIn), market).Ok?
    requires var st := Run(swaps, i, Start(input, totalIn), market);
             st.Ok? && Exchangeable(st.value, swaps[i], swaps[i + 1])
    ensures Run(other, k, Start(input, totalIn), market).Ok?
    ensures var x := Run(swaps, k, Start(input, totalIn), market).value;
            var y := Run(other, k, Start(input, totalIn), market).value;
            && SameCore(x, y) && |x.swaps| == |y.swaps| == k
            && y.swaps == x.swaps[i := x.swaps[i + 1]][i + 1 := x.swaps[i]]
  {
    hide Step, Exchangeable;
    if k == i + 2 {
      PairExchanged(swaps, other, i, input, totalIn, market);
    } else {
      var before, after, moved := LastStep(swaps, k, input, totalIn, market);
      TailDependsOnCore(swaps, other, i, k - 1, input, totalIn, market);
      var before' := Run(other, k - 1, Start(input, totalIn), market).value;
      StepDependsOnCore(before, before', swaps[k - 1], market);
      var after' := Run(other, k, Start(input, totalIn), market).value;
      assert after'.swaps == before'.swaps + [after.swaps[k - 1]];
    }
  }

  lemma PairExchanged<S>(swaps: seq<Swap>, other: seq<Swap>, i: nat, input: Token, totalIn: nat, market: Market<S>)
    requires i + 1 < |swaps| && other == Exchange(swaps, i)
    requires Run(swaps, i + 2, Start(input, totalIn), market).Ok?
    requires var st := Run(swaps, i, Start(input, totalIn), market);
             st.Ok? && Exchangeable(st.value, swaps[i], swaps[i + 1])
    ensures Run(other, i + 2, Start(input, totalIn), market).Ok?
    ensures var x := Run(swaps, i + 2, Start(input, totalIn), market).value;
            var y := Run(other, i + 2, Start(input, totalIn), market).value;
            && SameCore(x, y) && |x.swaps| == |y.swaps| == i + 2
            && y.swaps == x.swaps[i := x.swaps[i + 1]][i + 1 := x.swaps[i]]
  {
    hide Step, Exchangeable;
    assert swaps[..i] == other[..i];
    SamePrefixSameRun(swaps, other, i, Start(input, totalIn), market);
    var st := Run(swaps, i, Start(input, totalIn), market).value;
    assert Run(swaps, i + 1, Start(input, totalIn), market) == Step(st, swaps[i], market);
    StepsCommute(st, swaps[i], swaps[i + 1], market);
    assert Run(other, i + 1, Start(input, totalIn), market) == Step(st, swaps[i + 1], market);
    assert Run(other, i + 2, Start(input, totalIn), market)
        == Step(Step(st, swaps[i + 1], market).value, swaps[i], market);
  }

  /**
   Exchanging two adjacent split swaps of one token through different pools changes no amount, no
   gas, no output, and neither the balances nor the pools the run leaves behind, in whatever order the
   route pays and takes its tokens.
   */
  lemma OrderInGroupDoesNotMatter<S>(
    swaps: seq<Swap>, i: nat, input: Token, output: Token, totalIn: nat, market: Market<S>)
    requires SplitsFit(swaps) && i + 1 < |swaps|
    requires swaps[i].tokenIn == swaps[i + 1].tokenIn && swaps[i].split > 0.0 && swaps[i + 1].split > 0.0
    requires swaps[i].component != swaps[i + 1].component
    requires Simulate(swaps, input, output, totalIn, market).Ok?
    ensures var x := Simulate(swaps, input, output, totalIn, market).value;
            Simulate(Exchange(swaps, i), input, output, totalIn, market)
               == Ok(SimulatedRoute(x.swaps[i := x.swaps[i + 1]][i + 1 := x.swaps[i]], x.amountOut, x.gas))
    ensures var x := Run(swaps, |swaps|, Start(input, totalIn), market);
            var y := Run(Exchange(swaps, i), |swaps|, Start(input, totalIn), market);
            x.Ok? && y.Ok? && y.value.available == x.value.available && y.value.postSwap == x.value.postSwap
  {
    hide Step, Exchangeable;
    if Run(swaps, i, Start(input, totalIn), market).Err? {
      ErrPersists(swaps, i, |swaps|, Start(input, totalIn), market);
      assert false;
    }
    RoomForBoth(swaps, i, input, totalIn, market);
    TailDependsOnCore(swaps, Exchange(swaps, i), i, |swaps|, input, totalIn, market);
  }

  lemma RoomForBoth<S>(swaps: seq<Swap>, i: nat, input: Token, totalIn: nat, market: Market<S>)
    requires SplitsFit(swaps) && i + 1 < |swaps|
    requires swaps[i].tokenIn == swaps[i + 1].tokenIn && swaps[i].split > 0.0 && swaps[i + 1].split > 0.0
    requires swaps[i].component != swaps[i + 1].component
    requires Run(swaps, i, Start(input, totalIn), market).Ok?
    ensures Exchangeable(Run(swaps, i, Start(input, totalIn), market).value, swaps[i], swaps[i + 1])
  {
    hide SplitAmount, Run, SplitsFit, BranchTotal, Balance, Part;
    var st, t := Run(swaps, i, Start(input, totalIn), market).value, swaps[i].tokenIn;
    SplitsComeFirst(swaps, i);
    SnapshotCovered(swaps, i, input, totalIn, market, t);
    ShareIsSplit(swaps, i, BranchTotal(st, t));
    ShareIsSplit(swaps, i + 1, BranchTotal(st, t));
  }

  // ---------------------------------------------------------------- replaying a replayed route

  /** The same pools, tokens and splits; the amounts may differ. */
  ghost predicate SameExceptAmounts(a: seq<Swap>, b: seq<Swap>) {
    && |a| == |b|
    && forall i | 0 <= i < |a| :: b[i] == a[i].(amountIn := b[i].amountIn, amountOut := b[i].amountOut)
  }

  lemma StepIgnoresAmounts<S>(st: Sim<S>, a: Swap, b: Swap, market: Market<S>)
    requires b == a.(amountIn := b.amountIn, amountOut := b.amountOut)
    ensures Step(st, a, market) == Step(st, b, market)
  {
    hide SplitAmount;
    assert Take(st, a) == Take(st, b);
  }

  /** A run does not read the amounts its swaps carry. */
  lemma {:induction false} RunIgnoresAmounts<S>(a: seq<Swap>, b: seq<Swap>, k: nat, st: Sim<S>, market: Market<S>)
    requires SameExceptAmounts(a, b) && k <= |a|
    ensures Run(a, k, st, market) == Run(b, k, st, market)
  {
    hide Step;
    if k > 0 {
      RunIgnoresAmounts(a, b, k - 1, st, market);
      if Run(a, k - 1, st, market).Ok? {
        StepIgnoresAmounts(Run(a, k - 1, st, market).value, a[k - 1], b[k - 1], market);
      }
    }
  }

  /** Up to the last swap that takes `t`, nothing pays it. */
  ghost predicate NotPaidWhileTaken(swaps: seq<Swap>, t: Token) {
    forall j, i | 0 <= j <= i < |swaps| && swaps[i].tokenIn == t :: swaps[j].tokenOut != t
  }

  /** Once nothing more takes it, the input token has been taken in full, whatever is paid of it later. */
  lemma {:induction false} InputTakenInFull<S>(swaps: seq<Swap>, k: nat, input: Token, totalIn: nat, market: Market<S>)
    requires EndsInRemainder(swaps, input) && NotPaidWhileTaken(swaps, input)
    requires k <= |swaps| && Run(swaps, k, Start(input, totalIn), market).Ok?
    requires TakenIn(swaps, 0, k, input) && !TakenIn(swaps, k, |swaps|, input)
    ensures var st := Run(swaps, k, Start(input, totalIn), market).value;
            |st.swaps| == k && TotalIn(Flow(swaps, k, st), input) == totalIn
  {
    hide Take, Step, Run, WriteBack, Balance, TotalIn, TotalOut;
    var before, after, moved := LastStep(swaps, k, input, totalIn, market);
    TotalsAppend(Flow(swaps, k - 1, before), moved, input);
    if swaps[k - 1].tokenIn == input {
      assert RemainderIfLast(swaps, k - 1);
      TakesAllThatRemains(before, swaps[k - 1]);
      StepMoves(before, swaps[k - 1], market, input);
      BalancesConserved(swaps, k, input, totalIn, market, input);
      NothingPaid(swaps, k, after, input);
    } else {
      InputTakenInFull(swaps, k - 1, input, totalIn, market);
    }
  }

  lemma NothingPaid<S>(swaps: seq<Swap>, k: nat, st: Sim<S>, t: Token)
    requires NotPaidWhileTaken(swaps, t) && 0 < k <= |swaps| && |st.swaps| == k && swaps[k - 1].tokenIn == t
    ensures TotalOut(Flow(swaps, k, st), t) == 0
  {
    TotalOutNeedsPayer(Flow(swaps, k, st), t);
  }

  /**
   Writing the simulated amounts back and replaying on the same market gives the same swaps, output
   and gas, if the input token's group ends in a remainder and nothing pays that token before it has.
   A round trip may pay it back later.
   */
  lemma ReplayIsFixpoint<S>(swaps: seq<Swap>, market: Market<S>)
    requires ReplayRoute(swaps, market).Ok?
    requires var input := swaps[0].tokenIn; EndsInRemainder(swaps, input) && NotPaidWhileTaken(swaps, input)
    ensures var x := ReplayRoute(swaps, market).value;
            ReplayRoute(WriteBack(swaps, x.swaps), market) == Ok(x)
  {
    hide Run, NotPaidWhileTaken, EndsInRemainder, TotalIn;
    var input := swaps[0].tokenIn;
    var totalIn := TotalIn(swaps, input);
    assert TakenIn(swaps, 0, |swaps|, input);
    InputTakenInFull(swaps, |swaps|, input, totalIn, market);
    var st := Run(swaps, |swaps|, Start(input, totalIn), market).value;
    var route := WriteBack(swaps, st.swaps);
    assert swaps[..|swaps|] == swaps;
    RunIgnoresAmounts(swaps, route, |swaps|, Start(input, totalIn), market);
  }
}
