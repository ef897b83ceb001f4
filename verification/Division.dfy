/**
 How a token's total is divided between the swaps that take it: the run divides exactly as a function
 of the total and the splits says, fractions that fit take their exact part, and how far dividing
 another total can be from dividing in the same proportions.
 */
module Division {
  import opened Arithmetic
  import opened Routes
  import opened Replay
  import opened ReplayFlow

  // ---------------------------------------------------------------- the division as a function

  /** What a swap takes when `taken` of `total` is gone. */
  function Part(total: nat, taken: nat, split: real): (part: nat)
    requires taken <= total
    ensures taken + part <= total
  {
    if split > 0.0 && SplitAmount(total, split) < total - taken then SplitAmount(total, split) else total - taken
  }

  /** What the first `k` swaps take of `t` when `total` of it is divided. */
  function Taken(swaps: seq<Swap>, k: nat, t: Token, total: nat): (n: nat)
    requires k <= |swaps|
    ensures n <= total
  {
    if k == 0 then 0
    else
      var before := Taken(swaps, k - 1, t, total);
      before + if swaps[k - 1].tokenIn == t then Part(total, before, swaps[k - 1].split) else 0
  }

  /** What swap `i` takes when `total` of its token is divided. */
  function Share(swaps: seq<Swap>, i: nat, total: nat): nat
    requires i < |swaps|
  {
    Part(total, Taken(swaps, i, swaps[i].tokenIn, total), swaps[i].split)
  }

  lemma {:induction false} NothingTaken(swaps: seq<Swap>, k: nat, t: Token, total: nat)
    requires k <= |swaps| && !TakenIn(swaps, 0, k, t)
    ensures Taken(swaps, k, t, total) == 0
  {
    hide Part;
    if k > 0 {
      NothingTaken(swaps, k - 1, t, total);
    }
  }

  /** What is collected of `t` by the state after `k` swaps. */
  ghost function Collected<S>(swaps: seq<Swap>, k: nat, input: Token, totalIn: nat, st: Sim<S>, t: Token): nat
    requires k <= |swaps| && |st.swaps| == k
  {
    Initial(input, totalIn, t) + TotalOut(Flow(swaps, k, st), t)
  }

  /** The snapshot a swap splits is all that is ever collected of its token. */
  lemma BranchTotalIsCollected<S>(swaps: seq<Swap>, k: nat, input: Token, totalIn: nat, market: Market<S>)
    requires k < |swaps| && Run(swaps, k, Start(input, totalIn), market).Ok?
    requires PaidBeforeTaken(swaps, swaps[k].tokenIn)
    ensures var st := Run(swaps, k, Start(input, totalIn), market).value;
            var t := swaps[k].tokenIn;
            && |st.swaps| == k
            && BranchTotal(st, t) == Collected(swaps, k, input, totalIn, st, t)
            && Balance(st.available, t) == Collected(swaps, k, input, totalIn, st, t) - TotalIn(Flow(swaps, k, st), t)
  {
    hide Take, Step, Run, PaidBeforeTaken;
    var st := Run(swaps, k, Start(input, totalIn), market).value;
    var t := swaps[k].tokenIn;
    SnapshotsComplete(swaps, k, input, totalIn, market, t);
    BalancesConserved(swaps, k, input, totalIn, market, t);
    if t !in st.branchTotals {
      TotalInNeedsTaker(Flow(swaps, k, st), t);
    }
  }

  lemma TakeIsPart<S>(st: Sim<S>, swap: Swap, total: nat, taken: nat)
    requires taken <= total
    requires BranchTotal(st, swap.tokenIn) == total && Balance(st.available, swap.tokenIn) == total - taken
    ensures Take(st, swap) == Part(total, taken, swap.split)
  {
    hide SplitAmount, BranchTotal, Balance;
  }

  /** In every run, each swap takes its share of all that is collected of its token. */
  lemma {:induction false} TakeIsShare<S>(swaps: seq<Swap>, k: nat, input: Token, totalIn: nat, market: Market<S>)
    requires k < |swaps| && Run(swaps, k, Start(input, totalIn), market).Ok?
    requires PaidBeforeTaken(swaps, swaps[k].tokenIn)
    ensures var st := Run(swaps, k, Start(input, totalIn), market).value;
            && |st.swaps| == k
            && Take(st, swaps[k]) == Share(swaps, k, Collected(swaps, k, input, totalIn, st, swaps[k].tokenIn))
    decreases k, 1
  {
    hide Take, Step, Run, Part, Taken, PaidBeforeTaken, BranchTotal, Balance;
    var st, t := Run(swaps, k, Start(input, totalIn), market).value, swaps[k].tokenIn;
    TakenIsDivided(swaps, k, input, totalIn, market, t);
    BranchTotalIsCollected(swaps, k, input, totalIn, market);
    var total := Collected(swaps, k, input, totalIn, st, t);
    TakeIsPart(st, swaps[k], total, Taken(swaps, k, t, total));
  }

  lemma FlowTakesNothing<S>(swaps: seq<Swap>, k: nat, st: Sim<S>, t: Token)
    requires k <= |swaps| && |st.swaps| == k && !TakenIn(swaps, 0, k, t)
    ensures TotalIn(Flow(swaps, k, st), t) == 0
  {
    TotalInNeedsTaker(Flow(swaps, k, st), t);
  }

  lemma {:induction false} TakenIsDivided<S>(
    swaps: seq<Swap>, k: nat, input: Token, totalIn: nat, market: Market<S>, t: Token)
    requires k <= |swaps| && Run(swaps, k, Start(input, totalIn), market).Ok? && PaidBeforeTaken(swaps, t)
    ensures var st := Run(swaps, k, Start(input, totalIn), market).value;
            && |st.swaps| == k
            && TotalIn(Flow(swaps, k, st), t) == Taken(swaps, k, t, Collected(swaps, k, input, totalIn, st, t))
    decreases k, 0
  {
    hide Take, Step, Part, WriteBack, Run, TotalIn, TotalOut;
    if k == 0 {
      FlowTakesNothing(swaps, 0, Start<S>(input, totalIn), t);
    } else {
      var before, after, moved := LastStep(swaps, k, input, totalIn, market);
      TotalsAppend(Flow(swaps, k - 1, before), moved, t);
      if swaps[k - 1].tokenIn == t {
        assert swaps[k - 1].tokenOut != t;
        TakenIsDivided(swaps, k - 1, input, totalIn, market, t);
        TakeIsShare(swaps, k - 1, input, totalIn, market);
      } else if swaps[k - 1].tokenOut == t {
        NothingTaken(swaps, k, t, Collected(swaps, k, input, totalIn, after, t));
        FlowTakesNothing(swaps, k, after, t);
      } else {
        TakenIsDivided(swaps, k - 1, input, totalIn, market, t);
      }
    }
  }

  // ---------------------------------------------------------------- fractions that fit

  ghost function SplitSum(swaps: seq<Swap>, k: nat, t: Token): real
    requires k <= |swaps|
  {
    if k == 0 then 0.0
    else
      SplitSum(swaps, k - 1, t)
      + if swaps[k - 1].tokenIn == t && swaps[k - 1].split > 0.0 then swaps[k - 1].split else 0.0
  }

  /** The positive splits of each token add up to at most one and come before the remainder. */
  ghost predicate SplitsFit(swaps: seq<Swap>) {
    && (forall t :: SplitSum(swaps, |swaps|, t) <= 1.0)
    && (forall i, j | 0 <= i < j < |swaps| && swaps[i].tokenIn == swaps[j].tokenIn && swaps[j].split > 0.0 ::
          swaps[i].split > 0.0)
  }

  ghost function NumeratorSum(swaps: seq<Swap>, k: nat, t: Token): nat
    requires k <= |swaps|
  {
    if k == 0 then 0
    else
      NumeratorSum(swaps, k - 1, t)
      + if swaps[k - 1].tokenIn == t && swaps[k - 1].split > 0.0 then SplitNumerator(swaps[k - 1].split) else 0
  }

  /** How many of the first `k` swaps take a fraction of `t`. */
  ghost function SplitCount(swaps: seq<Swap>, k: nat, t: Token): nat
    requires k <= |swaps|
  {
    if k == 0 then 0
    else SplitCount(swaps, k - 1, t) + if swaps[k - 1].tokenIn == t && swaps[k - 1].split > 0.0 then 1 else 0
  }

  lemma {:induction false} SplitCountGrows(swaps: seq<Swap>, j: nat, k: nat, t: Token)
    requires j <= k <= |swaps|
    ensures SplitCount(swaps, j, t) <= SplitCount(swaps, k, t)
  {
    if j < k {
      SplitCountGrows(swaps, j, k - 1, t);
    }
  }

  lemma {:induction false} NumeratorsFit(swaps: seq<Swap>, k: nat, t: Token)
    requires k <= |swaps|
    ensures NumeratorSum(swaps, k, t) as real <= SplitSum(swaps, k, t) * SPLIT_SCALE as real
  {
    if k > 0 {
      NumeratorsFit(swaps, k - 1, t);
      var split := swaps[k - 1].split;
      assert split > 0.0 ==> SplitNumerator(split) as real <= split * SPLIT_SCALE as real;
    }
  }

  lemma {:induction false} SplitSumGrows(swaps: seq<Swap>, j: nat, k: nat, t: Token)
    requires j <= k <= |swaps|
    ensures SplitSum(swaps, j, t) <= SplitSum(swaps, k, t)
  {
    if j < k {
      SplitSumGrows(swaps, j, k - 1, t);
    }
  }

  lemma NumeratorsWithinScale(swaps: seq<Swap>, k: nat, t: Token)
    requires SplitsFit(swaps) && k <= |swaps|
    ensures NumeratorSum(swaps, k, t) <= SPLIT_SCALE
  {
    NumeratorsFit(swaps, k, t);
    SplitSumGrows(swaps, k, |swaps|, t);
  }

  /** All takers of `t` among the first `k` swaps are split. */
  ghost predicate AllSplit(swaps: seq<Swap>, k: nat, t: Token)
    requires k <= |swaps|
  {
    forall i | 0 <= i < k && swaps[i].tokenIn == t :: swaps[i].split > 0.0
  }

  /** `taken` is at most `n` parts of the scale of `total`, and short of it by at most `count` units. */
  ghost predicate Near(taken: nat, total: nat, n: nat, count: nat) {
    taken * SPLIT_SCALE <= total * n <= (taken + count) * SPLIT_SCALE
  }

  lemma NothingNear(total: nat)
    ensures Near(0, total, 0, 0)
  {}

  lemma AddNear(taken: nat, part: nat, total: nat, n: nat, m: nat, count: nat)
    requires Near(taken, total, n, count) && Near(part, total, m, 1)
    ensures Near(taken + part, total, n + m, count + 1)
  {
    assert total * (n + m) == total * n + total * m;
  }

  lemma SplitAmountNear(total: nat, split: real)
    ensures Near(SplitAmount(total, split), total, SplitNumerator(split), 1)
  {
    FloorBounds(total, SplitNumerator(split), SPLIT_SCALE);
  }

  lemma FitsInScale(taken: nat, total: nat, n: nat, count: nat)
    requires Near(taken, total, n, count) && n <= SPLIT_SCALE
    ensures taken <= total
  {
    assert total * n <= total * SPLIT_SCALE;
    assert (taken - total) * SPLIT_SCALE <= 0;
  }

  /** With splits that fit, the split swaps of a token take the sum of their fractions, but for rounding. */
  lemma {:induction false} TakenNearNumerators(swaps: seq<Swap>, k: nat, t: Token, total: nat)
    requires SplitsFit(swaps) && k <= |swaps| && AllSplit(swaps, k, t)
    ensures Near(Taken(swaps, k, t, total), total, NumeratorSum(swaps, k, t), SplitCount(swaps, k, t))
    decreases k, 0
  {
    hide Near, SplitNumerator, SplitAmount, SplitsFit, Part;
    NothingNear(total);
    if k > 0 {
      TakenNearNumerators(swaps, k - 1, t, total);
      if swaps[k - 1].tokenIn == t {
        ShareIsSplit(swaps, k - 1, total);
        SplitAmountNear(total, swaps[k - 1].split);
        AddNear(Taken(swaps, k - 1, t, total), SplitAmount(total, swaps[k - 1].split), total,
                NumeratorSum(swaps, k - 1, t), SplitNumerator(swaps[k - 1].split), SplitCount(swaps, k - 1, t));
      }
    }
  }

  /** With splits that fit there is room for every fraction. */
  lemma {:induction false} ShareIsSplit(swaps: seq<Swap>, i: nat, total: nat)
    requires SplitsFit(swaps) && i < |swaps| && swaps[i].split > 0.0
    ensures Share(swaps, i, total) == SplitAmount(total, swaps[i].split)
    ensures Taken(swaps, i, swaps[i].tokenIn, total) + SplitAmount(total, swaps[i].split) <= total
    decreases i, 1
  {
    var t, n := swaps[i].tokenIn, SplitNumerator(swaps[i].split);
    assert AllSplit(swaps, i, t);
    hide Near, SplitNumerator, SplitAmount, SplitsFit;
    var taken, part := Taken(swaps, i, t, total), SplitAmount(total, swaps[i].split);
    TakenNearNumerators(swaps, i, t, total);
    SplitAmountNear(total, swaps[i].split);
    AddNear(taken, part, total, NumeratorSum(swaps, i, t), n, SplitCount(swaps, i, t));
    NumeratorsWithinScale(swaps, i + 1, t);
    FitsInScale(taken + part, total, NumeratorSum(swaps, i, t) + n, SplitCount(swaps, i, t) + 1);
  }

  /**
   While only split swaps have taken `t`, what is left of it and what they took of its snapshot cover the
   snapshot, whatever is paid of `t` and when.
   */
  lemma {:induction false} SnapshotCovered<S>(
    swaps: seq<Swap>, k: nat, input: Token, totalIn: nat, market: Market<S>, t: Token)
    requires SplitsFit(swaps) && k <= |swaps| && AllSplit(swaps, k, t)
    requires Run(swaps, k, Start(input, totalIn), market).Ok?
    ensures var st := Run(swaps, k, Start(input, totalIn), market).value;
            && (t in st.branchTotals <==> TakenIn(swaps, 0, k, t))
            && Balance(st.available, t) + Taken(swaps, k, t, BranchTotal(st, t)) >= BranchTotal(st, t)
  {
    hide SplitsFit, Take, Step, Run, Part, WriteBack;
    if k == 0 {
      NothingSnapshot<S>(swaps, input, totalIn, market, t);
    } else {
      var before, after, moved := LastStep(swaps, k, input, totalIn, market);
      SnapshotCovered(swaps, k - 1, input, totalIn, market, t);
      StepSnapshots(before, swaps[k - 1], market);
      StepMoves(before, swaps[k - 1], market, t);
      if swaps[k - 1].tokenIn == t {
        assert TakenIn(swaps, 0, k, t);
        TakeFits(swaps, k - 1, before);
      } else if t !in before.branchTotals {
        NothingTaken(swaps, k, t, BranchTotal(after, t));
      }
    }
  }

  lemma NothingSnapshot<S>(swaps: seq<Swap>, input: Token, totalIn: nat, market: Market<S>, t: Token)
    ensures var start := Run(swaps, 0, Start<S>(input, totalIn), market); start.Ok? && t !in start.value.branchTotals
  {}

  /** A split swap whose snapshot is covered takes its exact part of it. */
  lemma TakeFits<S>(swaps: seq<Swap>, k: nat, st: Sim<S>)
    requires SplitsFit(swaps) && k < |swaps| && swaps[k].split > 0.0
    requires var t := swaps[k].tokenIn;
             Balance(st.available, t) + Taken(swaps, k, t, BranchTotal(st, t)) >= BranchTotal(st, t)
    ensures var total := BranchTotal(st, swaps[k].tokenIn);
            Take(st, swaps[k]) == SplitAmount(total, swaps[k].split) == Share(swaps, k, total)
  {
    hide SplitsFit, SplitAmount, BranchTotal, Balance, Taken, Share;
    ShareIsSplit(swaps, k, BranchTotal(st, swaps[k].tokenIn));
  }

  /**
   With splits that fit, the cap never bites, in whatever order tokens are paid and taken: a split swap
   takes its exact part of the snapshot.
   */
  lemma CapNeverBites<S>(swaps: seq<Swap>, k: nat, input: Token, totalIn: nat, market: Market<S>)
    requires SplitsFit(swaps) && k < |swaps| && Run(swaps, k, Start(input, totalIn), market).Ok?
    requires swaps[k].split > 0.0
    ensures var st := Run(swaps, k, Start(input, totalIn), market).value;
            Take(st, swaps[k]) == SplitAmount(BranchTotal(st, swaps[k].tokenIn), swaps[k].split)
  {
    hide SplitsFit, Run, SplitAmount, Take, Taken, BranchTotal, Balance;
    SplitsComeFirst(swaps, k);
    SnapshotCovered(swaps, k, input, totalIn, market, swaps[k].tokenIn);
    TakeFits(swaps, k, Run(swaps, k, Start(input, totalIn), market).value);
  }

  lemma SplitsComeFirst(swaps: seq<Swap>, k: nat)
    requires SplitsFit(swaps) && k < |swaps| && swaps[k].split > 0.0
    ensures AllSplit(swaps, k, swaps[k].tokenIn)
  {}

  /** Where the token is paid only before it is taken, the snapshot is all that is ever collected of it. */
  lemma SplitTakesPartOfAll<S>(swaps: seq<Swap>, k: nat, input: Token, totalIn: nat, market: Market<S>)
    requires SplitsFit(swaps) && k < |swaps| && Run(swaps, k, Start(input, totalIn), market).Ok?
    requires swaps[k].split > 0.0 && PaidBeforeTaken(swaps, swaps[k].tokenIn)
    ensures var st := Run(swaps, k, Start(input, totalIn), market).value;
            && |st.swaps| == k
            && var total := Collected(swaps, k, input, totalIn, st, swaps[k].tokenIn);
               && Take(st, swaps[k]) == SplitAmount(total, swaps[k].split)
               && TotalIn(Flow(swaps, k, st), swaps[k].tokenIn) + Take(st, swaps[k]) <= total
  {
    hide Run, SplitAmount, SplitsFit, Take, BranchTotal, PaidBeforeTaken;
    CapNeverBites(swaps, k, input, totalIn, market);
    BranchTotalIsCollected(swaps, k, input, totalIn, market);
  }

  // ---------------------------------------------------------------- dividing another total

  /**
   `part'` of `whole'` is at most `m` units short of the part that `part` is of `whole`, or of `part`
   itself where `whole'` is no less than `whole`.
   */
  ghost predicate NearPart(part': nat, whole': nat, part: nat, whole: nat, m: nat) {
    if whole' >= whole then part' + m >= part else (part' + m) * whole >= part * whole'
  }

  /** How many units rounding can cost swap `i`: one for its own split, or one for each split before it. */
  ghost function Rounding(swaps: seq<Swap>, i: nat): nat
    requires i < |swaps|
  {
    if swaps[i].split > 0.0 then 1 else SplitCount(swaps, |swaps|, swaps[i].tokenIn)
  }

  /** However the total changes, a swap is short of its part by no more than the rounding. */
  lemma ShareNearPart(swaps: seq<Swap>, i: nat, total': nat, total: nat)
    requires SplitsFit(swaps) && i < |swaps|
    ensures NearPart(Share(swaps, i, total'), total', Share(swaps, i, total), total, Rounding(swaps, i))
  {
    hide SplitsFit, NearPart, Share, Rounding;
    var t := swaps[i].tokenIn;
    if swaps[i].split > 0.0 {
      SplitShareNear(swaps, i, total', total);
    } else if AllSplit(swaps, i, t) {
      RemainderShareNear(swaps, i, total', total);
    } else {
      var j :| 0 <= j < i && swaps[j].tokenIn == t && swaps[j].split <= 0.0;
      NothingLeftNear(swaps, j, i, total', total);
    }
  }

  lemma SplitShareNear(swaps: seq<Swap>, i: nat, total': nat, total: nat)
    requires SplitsFit(swaps) && i < |swaps| && swaps[i].split > 0.0
    ensures NearPart(Share(swaps, i, total'), total', Share(swaps, i, total), total, Rounding(swaps, i))
  {
    hide SplitsFit, Near, NearPart, SplitNumerator, SplitAmount, Share;
    ShareIsSplit(swaps, i, total');
    ShareIsSplit(swaps, i, total);
    SplitAmountNear(total', swaps[i].split);
    SplitAmountNear(total, swaps[i].split);
    SplitNearPart(SplitAmount(total', swaps[i].split), total', SplitAmount(total, swaps[i].split), total,
                  SplitNumerator(swaps[i].split));
  }

  lemma RemainderShareNear(swaps: seq<Swap>, i: nat, total': nat, total: nat)
    requires SplitsFit(swaps) && i < |swaps| && swaps[i].split <= 0.0 && AllSplit(swaps, i, swaps[i].tokenIn)
    ensures NearPart(Share(swaps, i, total'), total', Share(swaps, i, total), total, Rounding(swaps, i))
  {
    hide SplitsFit, Near, NearPart, Taken, SplitAmount, AllSplit;
    var t := swaps[i].tokenIn;
    TakenNearNumerators(swaps, i, t, total');
    TakenNearNumerators(swaps, i, t, total);
    NumeratorsWithinScale(swaps, i, t);
    SplitCountGrows(swaps, i, |swaps|, t);
    RemainderNearPart(Taken(swaps, i, t, total'), total', Taken(swaps, i, t, total), total, NumeratorSum(swaps, i, t),
                      SplitCount(swaps, i, t), Rounding(swaps, i));
  }

  lemma NothingLeftNear(swaps: seq<Swap>, j: nat, i: nat, total': nat, total: nat)
    requires j < i < |swaps| && swaps[j].tokenIn == swaps[i].tokenIn && swaps[j].split <= 0.0
    ensures NearPart(Share(swaps, i, total'), total', Share(swaps, i, total), total, Rounding(swaps, i))
  {
    hide Taken, SplitAmount, Rounding;
    AllTakenAfter(swaps, j, i, total);
    assert Share(swaps, i, total) == 0;
  }

  /** After a remainder nothing is left to take. */
  lemma {:induction false} AllTakenAfter(swaps: seq<Swap>, j: nat, k: nat, total: nat)
    requires j < k <= |swaps| && swaps[j].split <= 0.0
    ensures Taken(swaps, k, swaps[j].tokenIn, total) == total
  {
    if j < k - 1 {
      AllTakenAfter(swaps, j, k - 1, total);
    }
  }

  lemma SplitNearPart(part': nat, total': nat, part: nat, total: nat, n: nat)
    requires Near(part', total', n, 1) && Near(part, total, n, 1)
    ensures NearPart(part', total', part, total, 1)
  {
    if total' >= total {
      Multiply(total, total', n);
      Cancel(part, part' + 1, SPLIT_SCALE);
    } else {
      CrossMultiply(part, part' + 1, total', total, n, SPLIT_SCALE);
    }
  }

  lemma RemainderNearPart(taken': nat, total': nat, taken: nat, total: nat, n: nat, count: nat, m: nat)
    requires Near(taken', total', n, count) && Near(taken, total, n, count) && n <= SPLIT_SCALE && count <= m
    requires taken' <= total' && taken <= total
    ensures NearPart(total' - taken', total', total - taken, total, m)
  {
    if total' >= total {
      RemainderOfMore(taken', total', taken, total, n, count, SPLIT_SCALE);
    } else {
      CrossMultiply(taken', taken + count, total, total', n, SPLIT_SCALE);
      RemainderOfLess(taken', total', taken, total, count, m);
    }
  }

  /**
   If `p` is at most `n` parts of `b`, and `n` parts of `a` are at most `q`, then `p` to `b` is at
   most `q` to `a`.
   */
  lemma CrossMultiply(p: nat, q: nat, a: nat, b: nat, n: nat, scale: nat)
    requires scale > 0 && p * scale <= b * n && a * n <= q * scale
    ensures p * a <= q * b
  {
    Multiply(p * scale, b * n, a);
    Multiply(a * n, q * scale, b);
    assert p * scale * a == p * a * scale && b * n * a == a * n * b && q * scale * b == q * b * scale;
    Cancel(p * a, q * b, scale);
  }

  lemma RemainderOfMore(taken': nat, total': nat, taken: nat, total: nat, n: nat, count: nat, scale: nat)
    requires scale > 0 && total <= total' && n <= scale
    requires taken' * scale <= total' * n && total * n <= (taken + count) * scale
    ensures taken' <= total' - total + taken + count
  {
    assert total' * n == total * n + (total' - total) * n;
    assert (total' - total) * n <= (total' - total) * scale;
    assert (total' - total + taken + count) * scale == (total' - total) * scale + (taken + count) * scale;
    Cancel(taken', total' - total + taken + count, scale);
  }

  lemma RemainderOfLess(taken': nat, total': nat, taken: nat, total: nat, count: nat, m: nat)
    requires total' < total && taken' <= total' && taken <= total && count <= m
    requires taken' * total <= (taken + count) * total'
    ensures (total' - taken' + m) * total >= (total - taken) * total'
  {
    Distribute(taken, count, total');
    Multiply(count, m, total');
    Multiply(total', total, m);
    Distribute(total' - taken', m, total);
    Distribute(total', taken', total);
    Distribute(total, taken, total');
  }
}
