/**
 What validation gives the replay: every group of swaps taking one token ends in the remainder, its
 fractions fit, no swap pays a token that was taken before, and all flow reaches the output.
 */
module ValidatedRoutes {
  import opened Wrappers
  import opened Arithmetic
  import opened Routes
  import opened Replay
  import opened ReplayFlow
  import opened Division
  import opened RouteValidation
  import opened RouteLoops

  // ---------------------------------------------------------------- the order of a split route

  /** Swaps taking the same token stand together. */
  ghost predicate Grouped(swaps: seq<Swap>) {
    forall i, j, k | 0 <= i < j < k < |swaps| && swaps[i].tokenIn == swaps[k].tokenIn ::
      swaps[j].tokenIn == swaps[i].tokenIn
  }

  lemma {:induction false} GroupOf(swaps: seq<Swap>, cs: seq<Collection>, i: nat) returns (c: nat)
    requires AreCollections(swaps, |swaps|, cs) && i < |swaps|
    ensures c < |cs| && cs[c].token == swaps[i].tokenIn && cs[c].swaps == Takers(swaps, swaps[i].tokenIn)
    ensures swaps[i] in cs[c].swaps
  {
    assert HasCollection(cs, swaps[i].tokenIn);
    c :| 0 <= c < |cs| && cs[c].token == swaps[i].tokenIn;
    assert HoldsTakers(swaps, |swaps|, cs[c]);
    assert swaps[..|swaps|] == swaps;
    TakersAre(swaps, swaps[i].tokenIn);
  }

  /** Where groups stand together, the order of first appearance is the order of the swaps. */
  lemma GroupedFirst(swaps: seq<Swap>, i: nat, j: nat)
    requires Grouped(swaps) && i <= j < |swaps|
    ensures First(swaps, swaps[i].tokenIn) <= First(swaps, swaps[j].tokenIn)
  {
    var fa, fb := First(swaps, swaps[i].tokenIn), First(swaps, swaps[j].tokenIn);
    assert fa <= i && fb <= j;
  }

  /** A swap that stands after a swap of a later group. */
  ghost predicate StandsLate(swaps: seq<Swap>, i: nat, j: nat)
    requires i < j < |swaps|
  {
    First(swaps, swaps[j].tokenIn) < First(swaps, swaps[i].tokenIn)
  }

  /**
   A payment at or after the taking of its token is made by a swap that stands late, or returns to
   the first token.
   */
  lemma LatePayment(swaps: seq<Swap>, cs: seq<Collection>, i: nat, j: nat)
    requires ValidSplitRoute(swaps, cs) && i <= j < |swaps| && swaps[j].tokenOut == swaps[i].tokenIn
    ensures || (i < j && StandsLate(swaps, i, j))
            || (swaps[0].tokenIn == LastToken(swaps) == swaps[j].tokenOut)
  {
    hide HoldsTakers, HasCollection, SplitsValid, Connected, NoDeadEnd;
    var a := GroupOf(swaps, cs, i);
    var b := GroupOf(swaps, cs, j);
    assert swaps[..|swaps|] == swaps;
    if b < a {
      assert AppearsBefore(swaps, |swaps|, cs[b].token, cs[a].token);
    }
  }

  /**
   A validated split route that does not return to its first token is in topological order exactly
   when no swap that stands late pays the token of the group it stands behind.
   */
  lemma TopologicalIffNoLatePayment(swaps: seq<Swap>, cs: seq<Collection>)
    requires ValidSplitRoute(swaps, cs) && swaps[0].tokenIn != LastToken(swaps)
    ensures Topological(swaps) <==>
              forall i, j | 0 <= i < j < |swaps| && StandsLate(swaps, i, j) :: swaps[j].tokenOut != swaps[i].tokenIn
  {
    hide StandsLate, ValidSplitRoute;
    if forall i, j | 0 <= i < j < |swaps| && StandsLate(swaps, i, j) :: swaps[j].tokenOut != swaps[i].tokenIn {
      forall i, j | 0 <= i <= j < |swaps|
        ensures swaps[j].tokenOut != swaps[i].tokenIn
      {
        if swaps[j].tokenOut == swaps[i].tokenIn {
          LatePayment(swaps, cs, i, j);
        }
      }
    }
  }

  /** Groups stand together exactly when no swap stands late. */
  lemma GroupedIffNoneLate(swaps: seq<Swap>)
    ensures Grouped(swaps) <==> forall i, j | 0 <= i < j < |swaps| :: !StandsLate(swaps, i, j)
  {
    if Grouped(swaps) {
      forall i, j | 0 <= i < j < |swaps|
        ensures !StandsLate(swaps, i, j)
      {
        GroupedFirst(swaps, i, j);
      }
    } else {
      var i, j, k :|
        && 0 <= i < j < k < |swaps|
        && swaps[i].tokenIn == swaps[k].tokenIn && swaps[j].tokenIn != swaps[i].tokenIn;
      LateSomewhere(swaps, i, j, k);
    }
  }

  lemma LateSomewhere(swaps: seq<Swap>, i: nat, j: nat, k: nat)
    requires i < j < k < |swaps| && swaps[i].tokenIn == swaps[k].tokenIn != swaps[j].tokenIn
    ensures StandsLate(swaps, i, j) || StandsLate(swaps, j, k)
  {
    FirstIsTaken(swaps, i);
    FirstIsTaken(swaps, j);
  }

  lemma FirstIsTaken(swaps: seq<Swap>, i: nat)
    requires i < |swaps|
    ensures var f := First(swaps, swaps[i].tokenIn); f <= i && swaps[f].tokenIn == swaps[i].tokenIn
  {}

  /** In a validated split route whose groups stand together, only the output token is paid after it was taken. */
  lemma SplitPaidBefore(swaps: seq<Swap>, cs: seq<Collection>, t: Token)
    requires ValidSplitRoute(swaps, cs) && Grouped(swaps) && t != LastToken(swaps)
    ensures PaidBeforeTaken(swaps, t)
  {
    hide ValidSplitRoute, Grouped, StandsLate;
    GroupedIffNoneLate(swaps);
    forall i, j | 0 <= i <= j < |swaps| && swaps[i].tokenIn == t
      ensures swaps[j].tokenOut != t
    {
      if swaps[j].tokenOut == t {
        LatePayment(swaps, cs, i, j);
      }
    }
  }

  /**
   A validated split route whose groups stand together and that does not return to its first token
   is in topological order.
   */
  lemma SplitIsTopological(swaps: seq<Swap>, cs: seq<Collection>)
    requires ValidSplitRoute(swaps, cs) && Grouped(swaps) && swaps[0].tokenIn != LastToken(swaps)
    ensures Topological(swaps)
  {
    hide ValidSplitRoute, Grouped, StandsLate;
    GroupedIffNoneLate(swaps);
    TopologicalIffNoLatePayment(swaps, cs);
  }

  // ---------------------------------------------------------------- groups of a validated route

  lemma {:induction false} TakersGrow(swaps: seq<Swap>, i: nat, k: nat, t: Token)
    requires i <= k <= |swaps|
    ensures Takers(swaps[..i], t) <= Takers(swaps[..k], t)
    ensures !TakenIn(swaps, i, k, t) ==> Takers(swaps[..i], t) == Takers(swaps[..k], t)
  {
    if i < k {
      TakersGrow(swaps, i, k - 1, t);
      TakersStep(swaps, k - 1, t);
    }
  }

  /** Where a swap stands in its group, and that it stands last exactly when no later swap is in it. */
  lemma PlaceInGroup(swaps: seq<Swap>, i: nat) returns (p: nat)
    requires i < |swaps|
    ensures var g := Takers(swaps, swaps[i].tokenIn);
            p < |g| && g[p] == swaps[i] && (TakenIn(swaps, i + 1, |swaps|, swaps[i].tokenIn) <==> p < |g| - 1)
  {
    hide Takers, First;
    var t := swaps[i].tokenIn;
    p := |Takers(swaps[..i], t)|;
    TakersStep(swaps, i, t);
    TakersGrow(swaps, i + 1, |swaps|, t);
    assert swaps[..|swaps|] == swaps;
    if TakenIn(swaps, i + 1, |swaps|, t) {
      var j :| i + 1 <= j < |swaps| && swaps[j].tokenIn == t;
      TakersStep(swaps, j, t);
      TakersGrow(swaps, i + 1, j, t);
      TakersGrow(swaps, j + 1, |swaps|, t);
    }
  }

  lemma GroupValid(swaps: seq<Swap>, cs: seq<Collection>, i: nat)
    requires AreCollections(swaps, |swaps|, cs) && AllSplitsValid(cs) && i < |swaps|
    ensures var g := Takers(swaps, swaps[i].tokenIn); |g| > 0 && SplitsValid(g)
  {
    hide SplitsValid;
    var c := GroupOf(swaps, cs, i);
  }

  function PositiveTotal(g: seq<Swap>): real {
    if |g| == 0 then 0.0
    else PositiveTotal(g[..|g| - 1]) + if g[|g| - 1].split > 0.0 then g[|g| - 1].split else 0.0
  }

  lemma AddPositive(g: seq<Swap>, s: Swap)
    ensures PositiveTotal(g + [s]) == PositiveTotal(g) + if s.split > 0.0 then s.split else 0.0
  {
    assert (g + [s])[..|g|] == g;
  }

  lemma NothingPositive(swaps: seq<Swap>, t: Token)
    ensures PositiveTotal(Takers(swaps[..0], t)) == 0.0
  {}

  lemma {:induction false} SplitSumIsPositiveTotal(swaps: seq<Swap>, k: nat, t: Token)
    requires k <= |swaps|
    ensures SplitSum(swaps, k, t) == PositiveTotal(Takers(swaps[..k], t))
  {
    hide Takers, PositiveTotal;
    if k == 0 {
      NothingPositive(swaps, t);
    } else {
      SplitSumIsPositiveTotal(swaps, k - 1, t);
      TakersStep(swaps, k - 1, t);
      AddPositive(Takers(swaps[..k - 1], t), swaps[k - 1]);
    }
  }

  lemma {:induction false} PositiveTotalOfFractions(g: seq<Swap>)
    requires forall i | 0 <= i < |g| :: g[i].split > 0.0
    ensures PositiveTotal(g) == SplitTotal(g)
  {
    if |g| > 0 {
      PositiveTotalOfFractions(g[..|g| - 1]);
    }
  }

  lemma ValidGroupFits(g: seq<Swap>)
    requires |g| > 0 && SplitsValid(g)
    ensures PositiveTotal(g) < 1.0
  {
    if |g| == 1 {
      assert PositiveTotal(g[..0]) == 0.0;
    } else {
      PositiveTotalOfFractions(g[..|g| - 1]);
    }
  }

  // ---------------------------------------------------------------- the checks said of the swaps

  /** Each swap but the last to take its token takes a fraction of it, the last the rest, and a rest is left. */
  ghost predicate FractionsLeaveRest(swaps: seq<Swap>) {
    && (forall i | 0 <= i < |swaps| ::
          if TakenIn(swaps, i + 1, |swaps|, swaps[i].tokenIn) then 0.0 < swaps[i].split < 1.0
          else swaps[i].split == 0.0)
    && (forall t :: SplitSum(swaps, |swaps|, t) < 1.0)
  }

  /** Swaps lead from the first token to the token each swap takes. */
  ghost predicate AllReached(swaps: seq<Swap>)
    requires |swaps| > 0
  {
    forall i | 0 <= i < |swaps| :: LedTo(swaps, swaps[0].tokenIn, swaps[i].tokenIn)
  }

  ghost predicate LedTo(swaps: seq<Swap>, from: Token, to: Token) {
    exists w: seq<Token> :: |w| > 0 && w[0] == from && w[|w| - 1] == to && AreLed(swaps, w)
  }

  ghost predicate AreLed(swaps: seq<Swap>, w: seq<Token>) {
    forall j | 0 < j < |w| :: Edge(swaps, w[j - 1], w[j])
  }

  /** Each token paid is the last token, or another than the first and taken on. */
  ghost predicate AllTakenOn(swaps: seq<Swap>)
    requires |swaps| > 0
  {
    forall s | s in swaps ::
      s.tokenOut == LastToken(swaps) || (s.tokenOut != swaps[0].tokenIn && TakenIn(swaps, 0, |swaps|, s.tokenOut))
  }

  /**
   A swap pays only tokens that are first taken after its own, but for a round trip, which takes more
   than one token.
   */
  ghost predicate PaysForward(swaps: seq<Swap>)
    requires |swaps| > 0
  {
    var roundTrip := swaps[0].tokenIn == LastToken(swaps);
    && (forall i, j | 0 <= i < |swaps| && 0 <= j < |swaps| && swaps[j].tokenOut == swaps[i].tokenIn ::
          || First(swaps, swaps[j].tokenIn) < First(swaps, swaps[i].tokenIn)
          || (roundTrip && swaps[j].tokenOut == swaps[0].tokenIn))
    && (roundTrip ==> exists i :: 0 <= i < |swaps| && swaps[i].tokenIn != swaps[0].tokenIn)
  }

  lemma {:induction false} CollectionsAre(swaps: seq<Swap>, k: nat)
    requires k <= |swaps|
    ensures AreCollections(swaps, k, Collections(swaps, k))
  {
    hide AreCollections;
    if k == 0 {
      NothingCollected(swaps);
    } else {
      CollectionsAre(swaps, k - 1);
      AddSwap(swaps, k - 1, Collections(swaps, k - 1));
    }
  }

  /** A route passes the split checks exactly when its swaps, without their collections, meet these four rules. */
  lemma SplitRouteIff(swaps: seq<Swap>)
    requires |swaps| > 0
    ensures ValidSplitRoute(swaps, Collections(swaps, |swaps|)) <==>
            FractionsLeaveRest(swaps) && AllReached(swaps) && AllTakenOn(swaps) && PaysForward(swaps)
  {
    hide AreCollections, AllSplitsValid, Connected, NoDeadEnd, CyclesValid, FractionsLeaveRest, AllReached, AllTakenOn,
         PaysForward, Collections;
    var cs := Collections(swaps, |swaps|);
    CollectionsAre(swaps, |swaps|);
    FirstCollection(swaps, cs);
    SplitsIff(swaps, cs);
    ConnectedIff(swaps, cs);
    DeadEndsIff(swaps, cs);
    CyclesIff(swaps, cs);
  }

  lemma SplitsIff(swaps: seq<Swap>, cs: seq<Collection>)
    requires AreCollections(swaps, |swaps|, cs)
    ensures AllSplitsValid(cs) <==> FractionsLeaveRest(swaps)
  {
    if AllSplitsValid(cs) {
      ValidFractions(swaps, cs);
    }
    if FractionsLeaveRest(swaps) {
      forall c | 0 <= c < |cs|
        ensures |cs[c].swaps| > 0 && SplitsValid(cs[c].swaps)
      {
        assert HoldsTakers(swaps, |swaps|, cs[c]);
        assert swaps[..|swaps|] == swaps;
        FractionsValid(swaps, cs[c].token);
      }
    }
  }

  lemma ValidFractions(swaps: seq<Swap>, cs: seq<Collection>)
    requires AreCollections(swaps, |swaps|, cs) && AllSplitsValid(cs)
    ensures FractionsLeaveRest(swaps)
  {
    hide AreCollections, AllSplitsValid;
    forall i | 0 <= i < |swaps|
      ensures if TakenIn(swaps, i + 1, |swaps|, swaps[i].tokenIn) then 0.0 < swaps[i].split < 1.0
              else swaps[i].split == 0.0
    {
      var p := PlaceInGroup(swaps, i);
      GroupValid(swaps, cs, i);
    }
    forall t
      ensures SplitSum(swaps, |swaps|, t) < 1.0
    {
      GroupLeavesRest(swaps, cs, t);
    }
  }

  lemma GroupLeavesRest(swaps: seq<Swap>, cs: seq<Collection>, t: Token)
    requires AreCollections(swaps, |swaps|, cs) && AllSplitsValid(cs)
    ensures SplitSum(swaps, |swaps|, t) < 1.0
  {
    hide AreCollections, AllSplitsValid, SplitsValid, SplitSum;
    assert swaps[..|swaps|] == swaps;
    SplitSumIsPositiveTotal(swaps, |swaps|, t);
    if |Takers(swaps, t)| > 0 {
      var s := Takers(swaps, t)[0];
      TakersAre(swaps, t);
      assert s in Takers(swaps, t);
      var i :| 0 <= i < |swaps| && swaps[i] == s;
      GroupValid(swaps, cs, i);
      ValidGroupFits(Takers(swaps, t));
    }
  }

  /** What the split check gives the replay. */
  lemma SplitRouteFits(swaps: seq<Swap>, cs: seq<Collection>)
    requires ValidSplitRoute(swaps, cs)
    ensures RemainderLast(swaps) && SplitsFit(swaps)
  {
    hide Connected, NoDeadEnd, NoCycle, AllSplitsValid, AreCollections;
    ValidFractions(swaps, cs);
    FractionsFit(swaps);
  }

  lemma FractionsFit(swaps: seq<Swap>)
    requires FractionsLeaveRest(swaps)
    ensures RemainderLast(swaps) && SplitsFit(swaps)
  {
    hide SplitSum;
    forall i, j | 0 <= i < j < |swaps| && swaps[i].tokenIn == swaps[j].tokenIn && swaps[j].split > 0.0
      ensures swaps[i].split > 0.0
    {
      assert TakenIn(swaps, i + 1, |swaps|, swaps[i].tokenIn);
    }
  }

  /** Which swap stands at place `p` of its group. */
  lemma {:induction false} SwapAtPlace(swaps: seq<Swap>, k: nat, t: Token, p: nat) returns (i: nat)
    requires k <= |swaps| && p < |Takers(swaps[..k], t)|
    ensures i < k && swaps[i].tokenIn == t && |Takers(swaps[..i], t)| == p
  {
    TakersStep(swaps, k - 1, t);
    if p == |Takers(swaps[..k - 1], t)| {
      i := k - 1;
    } else {
      i := SwapAtPlace(swaps, k - 1, t, p);
    }
  }

  lemma FractionsValid(swaps: seq<Swap>, t: Token)
    requires FractionsLeaveRest(swaps) && |Takers(swaps, t)| > 0
    ensures SplitsValid(Takers(swaps, t))
  {
    hide SplitSum;
    var g := Takers(swaps, t);
    assert swaps[..|swaps|] == swaps;
    forall p | 0 <= p < |g|
      ensures if p < |g| - 1 then 0.0 < g[p].split < 1.0 else g[p].split == 0.0
    {
      var i := SwapAtPlace(swaps, |swaps|, t, p);
      SamePlace(swaps, i, p);
    }
    hide FractionsLeaveRest, Takers;
    assert SplitSum(swaps, |swaps|, t) < 1.0 by {
      RestLeft(swaps, t);
    }
    SplitSumIsPositiveTotal(swaps, |swaps|, t);
    LastIsNoFraction(g);
  }

  lemma RestLeft(swaps: seq<Swap>, t: Token)
    requires FractionsLeaveRest(swaps)
    ensures SplitSum(swaps, |swaps|, t) < 1.0
  {}

  lemma SamePlace(swaps: seq<Swap>, i: nat, p: nat)
    requires i < |swaps| && |Takers(swaps[..i], swaps[i].tokenIn)| == p
    ensures var g := Takers(swaps, swaps[i].tokenIn);
            p < |g| && g[p] == swaps[i] && (TakenIn(swaps, i + 1, |swaps|, swaps[i].tokenIn) <==> p < |g| - 1)
  {
    hide Takers, First;
    var t := swaps[i].tokenIn;
    TakersStep(swaps, i, t);
    TakersGrow(swaps, i + 1, |swaps|, t);
    assert swaps[..|swaps|] == swaps;
    if TakenIn(swaps, i + 1, |swaps|, t) {
      var j :| i + 1 <= j < |swaps| && swaps[j].tokenIn == t;
      TakersStep(swaps, j, t);
      TakersGrow(swaps, i + 1, j, t);
      TakersGrow(swaps, j + 1, |swaps|, t);
    }
  }

  lemma LastIsNoFraction(g: seq<Swap>)
    requires |g| > 0 && g[|g| - 1].split == 0.0 && forall p | 0 <= p < |g| - 1 :: g[p].split > 0.0
    ensures PositiveTotal(g) == SplitTotal(g[..|g| - 1])
  {
    PositiveTotalOfFractions(g[..|g| - 1]);
  }

  lemma LeadsIffEdge(swaps: seq<Swap>, cs: seq<Collection>, x: Token, y: Token)
    requires AreCollections(swaps, |swaps|, cs)
    ensures Leads(cs, x, y) <==> Edge(swaps, x, y)
  {
    if Leads(cs, x, y) {
      var c, s :| 0 <= c < |cs| && cs[c].token == x && s in cs[c].swaps && s.tokenOut == y;
      CollectedSwap(swaps, cs, c, s);
    }
    if Edge(swaps, x, y) {
      var s :| s in swaps && s.tokenIn == x && s.tokenOut == y;
      var i :| 0 <= i < |swaps| && swaps[i] == s;
      var c := GroupOf(swaps, cs, i);
    }
  }

  lemma ConnectedIff(swaps: seq<Swap>, cs: seq<Collection>)
    requires |swaps| > 0 && AreCollections(swaps, |swaps|, cs) && |cs| > 0 && cs[0].token == swaps[0].tokenIn
    ensures Connected(cs) <==> AllReached(swaps)
  {
    hide AreCollections, Reachable, LedTo;
    if Connected(cs) {
      forall i | 0 <= i < |swaps|
        ensures LedTo(swaps, swaps[0].tokenIn, swaps[i].tokenIn)
      {
        var c := GroupOf(swaps, cs, i);
        ReachableIffLed(swaps, cs, swaps[0].tokenIn, swaps[i].tokenIn);
      }
    }
    if AllReached(swaps) {
      forall c | 0 <= c < |cs|
        ensures Reachable(cs, cs[0].token, cs[c].token)
      {
        var i := MemberOf(swaps, cs, c);
        ReachableIffLed(swaps, cs, swaps[0].tokenIn, swaps[i].tokenIn);
      }
    }
  }

  lemma MemberOf(swaps: seq<Swap>, cs: seq<Collection>, c: nat) returns (i: nat)
    requires AreCollections(swaps, |swaps|, cs) && c < |cs|
    ensures i < |swaps| && swaps[i].tokenIn == cs[c].token
  {
    assert HoldsTakers(swaps, |swaps|, cs[c]);
    var s := cs[c].swaps[0];
    CollectedSwap(swaps, cs, c, s);
    i :| 0 <= i < |swaps| && swaps[i] == s;
  }

  lemma ReachableIffLed(swaps: seq<Swap>, cs: seq<Collection>, from: Token, to: Token)
    requires AreCollections(swaps, |swaps|, cs)
    ensures Reachable(cs, from, to) <==> LedTo(swaps, from, to)
  {
    hide Leads, Edge, AreCollections;
    forall x, y
      ensures Leads(cs, x, y) <==> Edge(swaps, x, y)
    {
      LeadsIffEdge(swaps, cs, x, y);
    }
    if Reachable(cs, from, to) {
      var w :| IsPath(cs, w) && w[0] == from && w[|w| - 1] == to;
      assert AreLed(swaps, w);
    }
    if LedTo(swaps, from, to) {
      var w: seq<Token> :| |w| > 0 && w[0] == from && w[|w| - 1] == to && AreLed(swaps, w);
      assert IsPath(cs, w);
    }
  }

  lemma DeadEndsIff(swaps: seq<Swap>, cs: seq<Collection>)
    requires |swaps| > 0 && AreCollections(swaps, |swaps|, cs) && |cs| > 0 && cs[0].token == swaps[0].tokenIn
    ensures NoDeadEnd(cs, LastToken(swaps)) <==> AllTakenOn(swaps)
  {
    hide TakenOn, TakenIn, HoldsTakers, AreCollections;
    forall t
      ensures TakenOn(cs, t) <==> t != swaps[0].tokenIn && TakenIn(swaps, 0, |swaps|, t)
    {
      TakenOnIff(swaps, cs, t);
    }
    forall s
      ensures s in swaps <==> exists c :: 0 <= c < |cs| && s in cs[c].swaps
    {
      if s in swaps {
        var i :| 0 <= i < |swaps| && swaps[i] == s;
        var c := GroupOf(swaps, cs, i);
      }
      if c :| 0 <= c < |cs| && s in cs[c].swaps {
        CollectedSwap(swaps, cs, c, s);
      }
    }
  }

  lemma TakenOnIff(swaps: seq<Swap>, cs: seq<Collection>, t: Token)
    requires |swaps| > 0 && AreCollections(swaps, |swaps|, cs) && |cs| > 0 && cs[0].token == swaps[0].tokenIn
    ensures TakenOn(cs, t) <==> t != swaps[0].tokenIn && TakenIn(swaps, 0, |swaps|, t)
  {
    hide HoldsTakers;
    CollectionsAreUnique(swaps, cs);
    if TakenOn(cs, t) {
      var d :| 0 < d < |cs| && cs[d].token == t;
      var i := MemberOf(swaps, cs, d);
    }
    if t != swaps[0].tokenIn && TakenIn(swaps, 0, |swaps|, t) {
      var i :| 0 <= i < |swaps| && swaps[i].tokenIn == t;
      var c := GroupOf(swaps, cs, i);
    }
  }

  /** Collections stand in the order in which their tokens are first taken. */
  lemma OrderIsFirst(swaps: seq<Swap>, cs: seq<Collection>, a: nat, b: nat)
    requires AreCollections(swaps, |swaps|, cs) && a < |cs| && b < |cs|
    ensures a <= b <==> First(swaps, cs[a].token) <= First(swaps, cs[b].token)
  {
    hide HoldsTakers, First;
    assert swaps[..|swaps|] == swaps;
    if a < b {
      assert AppearsBefore(swaps, |swaps|, cs[a].token, cs[b].token);
    } else if b < a {
      assert AppearsBefore(swaps, |swaps|, cs[b].token, cs[a].token);
    }
  }

  lemma CyclesIff(swaps: seq<Swap>, cs: seq<Collection>)
    requires |swaps| > 0 && AreCollections(swaps, |swaps|, cs) && |cs| > 0 && cs[0].token == swaps[0].tokenIn
    ensures CyclesValid(swaps, cs) <==> PaysForward(swaps)
  {
    hide AreCollections, First;
    if CyclesValid(swaps, cs) {
      ForwardByCollections(swaps, cs);
    }
    if PaysForward(swaps) {
      NoCycleByFirst(swaps, cs);
    }
  }

  lemma ForwardByCollections(swaps: seq<Swap>, cs: seq<Collection>)
    requires |swaps| > 0 && AreCollections(swaps, |swaps|, cs) && |cs| > 0 && cs[0].token == swaps[0].tokenIn
    requires CyclesValid(swaps, cs)
    ensures PaysForward(swaps)
  {
    hide AreCollections, First;
    forall i, j | 0 <= i < |swaps| && 0 <= j < |swaps| && swaps[j].tokenOut == swaps[i].tokenIn
      ensures || First(swaps, swaps[j].tokenIn) < First(swaps, swaps[i].tokenIn)
              || (swaps[0].tokenIn == LastToken(swaps) && swaps[j].tokenOut == swaps[0].tokenIn)
    {
      var a := GroupOf(swaps, cs, i);
      var b := GroupOf(swaps, cs, j);
      OrderIsFirst(swaps, cs, a, b);
    }
    if |cs| > 1 {
      CollectionsAreUnique(swaps, cs);
      assert cs[0].token != cs[1].token;
      var i := MemberOf(swaps, cs, 1);
    }
  }

  lemma NoCycleByFirst(swaps: seq<Swap>, cs: seq<Collection>)
    requires |swaps| > 0 && AreCollections(swaps, |swaps|, cs) && |cs| > 0 && cs[0].token == swaps[0].tokenIn
    requires PaysForward(swaps)
    ensures CyclesValid(swaps, cs)
  {
    hide AreCollections, First;
    forall a, b, s | 0 <= a <= b < |cs| && s in cs[b].swaps && s.tokenOut == cs[a].token
      ensures swaps[0].tokenIn == LastToken(swaps) && s.tokenOut == swaps[0].tokenIn
    {
      CollectedSwap(swaps, cs, b, s);
      var j :| 0 <= j < |swaps| && swaps[j] == s;
      var i := MemberOf(swaps, cs, a);
      OrderIsFirst(swaps, cs, a, b);
    }
    if swaps[0].tokenIn == LastToken(swaps) {
      var i :| 0 <= i < |swaps| && swaps[i].tokenIn != swaps[0].tokenIn;
      var c := GroupOf(swaps, cs, i);
    }
  }

  /** A sequence passes exactly when no token is taken twice and the last is not taken in between. */
  lemma SequenceIff(swaps: seq<Swap>)
    requires |swaps| > 0 && IsSequence(swaps)
    ensures (forall i | 0 <= i < |swaps| :: PaysNew(swaps, i)) <==>
            && (forall i, j | 0 <= i < j < |swaps| :: swaps[i].tokenIn != swaps[j].tokenIn)
            && (forall i | 0 < i < |swaps| :: swaps[i].tokenIn != LastToken(swaps))
  {
    if forall i | 0 <= i < |swaps| :: PaysNew(swaps, i) {
      forall i, j | 0 <= i < j < |swaps|
        ensures swaps[i].tokenIn != swaps[j].tokenIn
      {
        TakesNew(swaps, i, j);
      }
      forall i | 0 < i < |swaps|
        ensures swaps[i].tokenIn != LastToken(swaps)
      {
        assert swaps[i - 1].tokenOut == swaps[i].tokenIn;
        assert PaysNew(swaps, |swaps| - 1) && PaysNew(swaps, i - 1);
      }
    }
    if && (forall i, j | 0 <= i < j < |swaps| :: swaps[i].tokenIn != swaps[j].tokenIn)
       && (forall i | 0 < i < |swaps| :: swaps[i].tokenIn != LastToken(swaps)) {
      forall i | 0 <= i < |swaps|
        ensures PaysNew(swaps, i)
      {
        PaysNewToken(swaps, i);
      }
    }
  }

  /**
   Which routes pass validation, said of their swaps alone. One with a positive split is judged as a split
   route; any other must be one sequence that takes no token twice and its last token not in between.
   */
  lemma ValidatedIff(swaps: seq<Swap>)
    ensures Validated(swaps) <==>
            && |swaps| > 0
            && if exists i :: 0 <= i < |swaps| && swaps[i].split > 0.0 then
                 FractionsLeaveRest(swaps) && AllReached(swaps) && AllTakenOn(swaps) && PaysForward(swaps)
               else
                 && (forall i | 0 < i < |swaps| :: swaps[i - 1].tokenOut == swaps[i].tokenIn)
                 && (forall i, j | 0 <= i < j < |swaps| :: swaps[i].tokenIn != swaps[j].tokenIn)
                 && (forall i | 0 < i < |swaps| :: swaps[i].tokenIn != LastToken(swaps))
  {
    hide ValidSplitRoute, FractionsLeaveRest, AllReached, AllTakenOn, PaysForward, PaysNew;
    if |swaps| > 0 {
      SplitRouteIff(swaps);
      if IsSequence(swaps) {
        SequenceIff(swaps);
      }
      SplitByIndex(swaps);
    }
  }

  lemma SplitByIndex(swaps: seq<Swap>)
    ensures IsSplit(swaps) <==> exists i :: 0 <= i < |swaps| && swaps[i].split > 0.0
  {
    if i :| 0 <= i < |swaps| && swaps[i].split > 0.0 {
      assert swaps[i] in swaps;
    }
  }

  lemma TakesNew(swaps: seq<Swap>, i: nat, j: nat)
    requires IsSequence(swaps) && i < j < |swaps| && PaysNew(swaps, j - 1)
    ensures swaps[i].tokenIn != swaps[j].tokenIn
  {
    assert swaps[j - 1].tokenOut == swaps[j].tokenIn;
    assert i > 0 ==> swaps[i - 1].tokenOut == swaps[i].tokenIn;
  }

  lemma PaysNewToken(swaps: seq<Swap>, i: nat)
    requires IsSequence(swaps) && i < |swaps|
    requires forall i, j | 0 <= i < j < |swaps| :: swaps[i].tokenIn != swaps[j].tokenIn
    requires forall i | 0 < i < |swaps| :: swaps[i].tokenIn != LastToken(swaps)
    ensures PaysNew(swaps, i)
  {
    if i < |swaps| - 1 {
      PaidIsTakenNext(swaps, i);
    }
    forall j | 0 <= j < i
      ensures swaps[j].tokenOut != swaps[i].tokenOut
    {
      PaidIsTakenNext(swaps, j);
    }
  }

  lemma PaidIsTakenNext(swaps: seq<Swap>, j: nat)
    requires IsSequence(swaps) && j + 1 < |swaps|
    ensures swaps[j].tokenOut == swaps[j + 1].tokenIn
  {
    assert swaps[j + 1 - 1].tokenOut == swaps[j + 1].tokenIn;
  }

  // ---------------------------------------------------------------- connectivity and dead ends

  /** Every swap takes the first token or one that some swap pays. */
  ghost predicate TakesPaid(swaps: seq<Swap>, i: nat)
    requires i < |swaps|
  {
    swaps[i].tokenIn == swaps[0].tokenIn || exists j :: 0 <= j < i && swaps[j].tokenOut == swaps[i].tokenIn
  }

  lemma CollectedSwap(swaps: seq<Swap>, cs: seq<Collection>, c: nat, s: Swap)
    requires AreCollections(swaps, |swaps|, cs) && c < |cs| && s in cs[c].swaps
    ensures s in swaps && s.tokenIn == cs[c].token
  {
    assert HoldsTakers(swaps, |swaps|, cs[c]);
    assert swaps[..|swaps|] == swaps;
    TakersAre(swaps, cs[c].token);
  }

  /** What connectivity gives: before a swap takes a token, some swap pays it. */
  lemma SplitTakesPaid(swaps: seq<Swap>, cs: seq<Collection>, i: nat)
    requires ValidSplitRoute(swaps, cs) && Grouped(swaps) && i < |swaps|
    ensures TakesPaid(swaps, i)
  {
    hide HoldsTakers, SplitsValid, NoDeadEnd, NoCycle, Leads, Grouped, TakesPaid;
    var t := swaps[i].tokenIn;
    var c := GroupOf(swaps, cs, i);
    FirstCollection(swaps, cs);
    var w :| IsPath(cs, w) && w[0] == cs[0].token && w[|w| - 1] == cs[c].token;
    if |w| == 1 {
      FirstTakesPaid(swaps, i);
    } else {
      assert Leads(cs, w[|w| - 2], w[|w| - 1]);
      var j := Payer(swaps, cs, w[|w| - 2], t);
      PaidEarlier(swaps, cs, i, j);
    }
  }

  lemma FirstTakesPaid(swaps: seq<Swap>, i: nat)
    requires i < |swaps| && swaps[i].tokenIn == swaps[0].tokenIn
    ensures TakesPaid(swaps, i)
  {}

  lemma Payer(swaps: seq<Swap>, cs: seq<Collection>, x: Token, t: Token) returns (j: nat)
    requires AreCollections(swaps, |swaps|, cs) && Leads(cs, x, t)
    ensures j < |swaps| && swaps[j].tokenOut == t
  {
    hide AreCollections;
    var d, s :| 0 <= d < |cs| && cs[d].token == x && s in cs[d].swaps && s.tokenOut == t;
    CollectedSwap(swaps, cs, d, s);
    j :| 0 <= j < |swaps| && swaps[j] == s;
  }

  lemma PaidEarlier(swaps: seq<Swap>, cs: seq<Collection>, i: nat, j: nat)
    requires ValidSplitRoute(swaps, cs) && Grouped(swaps) && i < |swaps| && j < |swaps|
    requires swaps[j].tokenOut == swaps[i].tokenIn
    ensures TakesPaid(swaps, i)
  {
    hide ValidSplitRoute, Grouped, StandsLate;
    GroupedIffNoneLate(swaps);
    if i <= j {
      LatePayment(swaps, cs, i, j);
    }
  }

  /** What the absence of dead ends gives: every token paid is the output or taken on. */
  lemma SplitTakenOn(swaps: seq<Swap>, cs: seq<Collection>, s: Swap)
    requires ValidSplitRoute(swaps, cs) && s in swaps
    ensures s.tokenOut == LastToken(swaps) || TakenIn(swaps, 0, |swaps|, s.tokenOut)
  {
    hide SplitsValid, Connected, NoCycle, HoldsTakers;
    var i :| 0 <= i < |swaps| && swaps[i] == s;
    var c := GroupOf(swaps, cs, i);
    if s.tokenOut != LastToken(swaps) {
      assert TakenOn(cs, s.tokenOut);
      var d :| 0 < d < |cs| && cs[d].token == s.tokenOut;
      var first := cs[d].swaps[0];
      CollectedSwap(swaps, cs, d, first);
      var k :| 0 <= k < |swaps| && swaps[k] == first;
    }
  }

  // ---------------------------------------------------------------- a route without splits

  lemma SequencePaidBefore(swaps: seq<Swap>, t: Token)
    requires |swaps| > 0 && IsSequence(swaps) && (forall i | 0 <= i < |swaps| :: PaysNew(swaps, i))
    requires t != LastToken(swaps)
    ensures PaidBeforeTaken(swaps, t)
  {
    forall i, j | 0 <= i <= j < |swaps| && swaps[i].tokenIn == t
      ensures swaps[j].tokenOut != t
    {
      assert PaysNew(swaps, j);
      assert i > 0 ==> swaps[i - 1].tokenOut == t;
    }
  }

  lemma SequenceFits(swaps: seq<Swap>)
    requires !IsSplit(swaps)
    ensures RemainderLast(swaps) && SplitsFit(swaps)
  {
    assert forall i | 0 <= i < |swaps| :: swaps[i] in swaps && swaps[i].split <= 0.0;
    forall t
      ensures SplitSum(swaps, |swaps|, t) <= 1.0
    {
      NothingSplit(swaps, |swaps|, t);
    }
  }

  lemma {:induction false} NothingSplit(swaps: seq<Swap>, k: nat, t: Token)
    requires k <= |swaps| && forall i | 0 <= i < |swaps| :: swaps[i].split <= 0.0
    ensures SplitSum(swaps, k, t) == 0.0
  {
    if k > 0 {
      NothingSplit(swaps, k - 1, t);
    }
  }

  // ---------------------------------------------------------------- what validation gives

  /** The order of a route that can be replayed: a split route's groups stand together. */
  ghost predicate InOrder(swaps: seq<Swap>) {
    IsSplit(swaps) ==> Grouped(swaps)
  }

  /** A validated route in order meets everything the replay needs of a route, also when it is a round trip. */
  lemma ValidatedRouteReplays(swaps: seq<Swap>)
    requires Validated(swaps) && InOrder(swaps)
    ensures RemainderLast(swaps) && SplitsFit(swaps)
    ensures forall t | t != LastToken(swaps) :: PaidBeforeTaken(swaps, t)
    ensures swaps[0].tokenIn != LastToken(swaps) ==> Topological(swaps)
    ensures forall s | s in swaps :: s.tokenOut == LastToken(swaps) || TakenIn(swaps, 0, |swaps|, s.tokenOut)
    ensures forall i | 0 <= i < |swaps| :: TakesPaid(swaps, i)
  {
    if IsSplit(swaps) {
      SplitRouteReplays(swaps, Collections(swaps, |swaps|));
    } else {
      SequenceReplays(swaps);
    }
  }

  lemma SplitRouteReplays(swaps: seq<Swap>, cs: seq<Collection>)
    requires ValidSplitRoute(swaps, cs) && Grouped(swaps)
    ensures RemainderLast(swaps) && SplitsFit(swaps)
    ensures forall t | t != LastToken(swaps) :: PaidBeforeTaken(swaps, t)
    ensures swaps[0].tokenIn != LastToken(swaps) ==> Topological(swaps)
    ensures forall s | s in swaps :: s.tokenOut == LastToken(swaps) || TakenIn(swaps, 0, |swaps|, s.tokenOut)
    ensures forall i | 0 <= i < |swaps| :: TakesPaid(swaps, i)
  {
    hide Grouped, RemainderLast, SplitsFit, PaidBeforeTaken, Topological, TakenIn, TakesPaid, AllSplitsValid,
         Connected, NoDeadEnd, CyclesValid, AreCollections;
    SplitRouteFits(swaps, cs);
    if swaps[0].tokenIn != LastToken(swaps) {
      SplitIsTopological(swaps, cs);
    }
    forall t | t != LastToken(swaps)
      ensures PaidBeforeTaken(swaps, t)
    {
      SplitPaidBefore(swaps, cs, t);
    }
    forall s | s in swaps
      ensures s.tokenOut == LastToken(swaps) || TakenIn(swaps, 0, |swaps|, s.tokenOut)
    {
      SplitTakenOn(swaps, cs, s);
    }
    forall i | 0 <= i < |swaps|
      ensures TakesPaid(swaps, i)
    {
      SplitTakesPaid(swaps, cs, i);
    }
  }

  lemma SequenceReplays(swaps: seq<Swap>)
    requires |swaps| > 0 && !IsSplit(swaps) && IsSequence(swaps) && forall i | 0 <= i < |swaps| :: PaysNew(swaps, i)
    ensures RemainderLast(swaps) && SplitsFit(swaps)
    ensures forall t | t != LastToken(swaps) :: PaidBeforeTaken(swaps, t)
    ensures swaps[0].tokenIn != LastToken(swaps) ==> Topological(swaps)
    ensures forall s | s in swaps :: s.tokenOut == LastToken(swaps) || TakenIn(swaps, 0, |swaps|, s.tokenOut)
    ensures forall i | 0 <= i < |swaps| :: TakesPaid(swaps, i)
  {
    hide RemainderLast, SplitsFit, PaysNew, IsSplit;
    SequenceFits(swaps);
    forall t | t != LastToken(swaps)
      ensures PaidBeforeTaken(swaps, t)
    {
      SequencePaidBefore(swaps, t);
    }
    if swaps[0].tokenIn != LastToken(swaps) {
      SequenceTopological(swaps);
    }
    forall s | s in swaps
      ensures s.tokenOut == LastToken(swaps) || TakenIn(swaps, 0, |swaps|, s.tokenOut)
    {
      var i :| 0 <= i < |swaps| && swaps[i] == s;
      assert i < |swaps| - 1 ==> swaps[i + 1 - 1].tokenOut == swaps[i + 1].tokenIn;
    }
    forall i | 0 <= i < |swaps|
      ensures TakesPaid(swaps, i)
    {
      assert i > 0 ==> swaps[i - 1].tokenOut == swaps[i].tokenIn;
    }
  }

  lemma SequenceTopological(swaps: seq<Swap>)
    requires |swaps| > 0 && IsSequence(swaps) && (forall i | 0 <= i < |swaps| :: PaysNew(swaps, i))
    requires swaps[0].tokenIn != LastToken(swaps)
    ensures Topological(swaps)
  {
    forall i, j | 0 <= i <= j < |swaps|
      ensures swaps[j].tokenOut != swaps[i].tokenIn
    {
      assert PaysNew(swaps, j);
      assert i > 0 ==> swaps[i - 1].tokenOut == swaps[i].tokenIn;
    }
  }

  /** In a validated split route the swap that takes the rest of a token gets some of it, if there is any. */
  lemma ValidatedRestIsTaken<S>(swaps: seq<Swap>, k: nat, totalIn: nat, market: Market<S>)
    requires Validated(swaps) && IsSplit(swaps) && Grouped(swaps) && k < |swaps| && swaps[k].split <= 0.0
    requires swaps[k].tokenIn != LastToken(swaps)
    requires Run(swaps, k, Start(swaps[0].tokenIn, totalIn), market).Ok?
    ensures var st := Run(swaps, k, Start(swaps[0].tokenIn, totalIn), market).value;
            && |st.swaps| == k
            && (Collected(swaps, k, swaps[0].tokenIn, totalIn, st, swaps[k].tokenIn) > 0 ==> Take(st, swaps[k]) > 0)
  {
    hide Run, Collected, Take, Share, Validated, PaidBeforeTaken, Grouped, IsSplit, SplitsFit, RemainderLast,
         FractionsLeaveRest, Topological, TakenIn, TakesPaid;
    ValidatedRouteReplays(swaps);
    TakeIsShare(swaps, k, swaps[0].tokenIn, totalIn, market);
    var st := Run(swaps, k, Start(swaps[0].tokenIn, totalIn), market).value;
    var total := Collected(swaps, k, swaps[0].tokenIn, totalIn, st, swaps[k].tokenIn);
    if total > 0 {
      ValidatedLeavesRest(swaps);
      RestIsPositive(swaps, k, total);
    }
  }

  lemma ValidatedLeavesRest(swaps: seq<Swap>)
    requires Validated(swaps) && IsSplit(swaps)
    ensures FractionsLeaveRest(swaps)
  {
    hide ValidSplitRoute, FractionsLeaveRest, AllReached, AllTakenOn, PaysForward;
    SplitRouteIff(swaps);
  }

  lemma RestIsPositive(swaps: seq<Swap>, k: nat, total: nat)
    requires SplitsFit(swaps) && FractionsLeaveRest(swaps) && k < |swaps| && swaps[k].split <= 0.0 && total > 0
    ensures Share(swaps, k, total) > 0
  {
    var t := swaps[k].tokenIn;
    OnlyLastTakesRest(swaps, k);
    RestLeft(swaps, t);
    hide FractionsLeaveRest, SplitsFit, AllSplit, SplitSum, NumeratorSum, SplitCount, SplitAmount, Taken, Near;
    TakenNearNumerators(swaps, k, t, total);
    NumeratorsFit(swaps, k, t);
    SplitSumGrows(swaps, k, |swaps|, t);
    LessTaken(Taken(swaps, k, t, total), total, NumeratorSum(swaps, k, t), SplitCount(swaps, k, t));
  }

  lemma OnlyLastTakesRest(swaps: seq<Swap>, k: nat)
    requires FractionsLeaveRest(swaps) && k < |swaps| && swaps[k].split <= 0.0
    ensures AllSplit(swaps, k, swaps[k].tokenIn)
  {
    forall i | 0 <= i < k && swaps[i].tokenIn == swaps[k].tokenIn
      ensures swaps[i].split > 0.0
    {
      assert TakenIn(swaps, i + 1, |swaps|, swaps[i].tokenIn);
    }
  }

  lemma LessTaken(taken: nat, total: nat, n: nat, count: nat)
    requires Near(taken, total, n, count) && n < SPLIT_SCALE && total > 0
    ensures taken < total
  {
    CancelStrict(taken, total, SPLIT_SCALE);
  }

  /** Replaying a validated route in order leaves nothing behind but its output token. */
  lemma ValidatedFlowReachesOutput<S>(swaps: seq<Swap>, totalIn: nat, market: Market<S>, t: Token)
    requires Validated(swaps) && InOrder(swaps) && t != LastToken(swaps)
    requires Run(swaps, |swaps|, Start(swaps[0].tokenIn, totalIn), market).Ok?
    ensures Balance(Run(swaps, |swaps|, Start(swaps[0].tokenIn, totalIn), market).value.available, t) == 0
  {
    ValidatedRouteReplays(swaps);
    assert TakenIn(swaps, 0, |swaps|, swaps[0].tokenIn);
    hide Validated, InOrder, PaidBeforeTaken, TakenIn, RemainderLast, TakesPaid;
    AllFlowReachesOutput(swaps, swaps[0].tokenIn, LastToken(swaps), totalIn, market, t);
  }

  // ---------------------------------------------------------------- a validated route out of order

  function LateRoute(): seq<Swap> {
    [Swap("a", 0, 1, 0, 0, 0.5, false, None), Swap("b", 1, 2, 0, 0, 0.5, false, None),
     Swap("c", 0, 1, 0, 0, 0.0, false, None), Swap("d", 1, 2, 0, 0, 0.0, false, None)]
  }

  function LateCollections(): seq<Collection> {
    [Collection(0, [LateRoute()[0], LateRoute()[2]]), Collection(1, [LateRoute()[1], LateRoute()[3]])]
  }

  lemma NothingCollected(swaps: seq<Swap>)
    ensures AreCollections(swaps, 0, [])
  {}

  lemma LateCollected()
    ensures AreCollections(LateRoute(), 4, LateCollections()) && Collections(LateRoute(), 4) == LateCollections()
  {
    hide AreCollections;
    var swaps := LateRoute();
    NothingCollected(swaps);
    var one := [Collection(0, [swaps[0]])];
    var two := one + [Collection(1, [swaps[1]])];
    var three := [Collection(0, [swaps[0], swaps[2]]), Collection(1, [swaps[1]])];
    AddSwap(swaps, 0, []);
    assert WithSwap([], swaps[0]) == one;
    AddSwap(swaps, 1, one);
    assert WithSwap(one, swaps[1]) == two;
    AddSwap(swaps, 2, two);
    assert Find(two, 0) == 0 && [swaps[0]] + [swaps[2]] == [swaps[0], swaps[2]];
    assert WithSwap(two, swaps[2]) == three;
    AddSwap(swaps, 3, three);
    assert Find(three, 1) == 1 && [swaps[1]] + [swaps[3]] == [swaps[1], swaps[3]];
    assert WithSwap(three, swaps[3]) == LateCollections();
    assert Collections(swaps, 1) == one;
    assert Collections(swaps, 2) == two;
    assert Collections(swaps, 3) == three;
  }

  lemma LateConnected()
    ensures Connected(LateCollections())
  {
    var cs := LateCollections();
    ReachableItself(cs, 0);
    assert cs[0].swaps[0] in cs[0].swaps && Leads(cs, 0, 1);
    ReachableNext(cs, 0, 0, 1);
  }

  lemma LateSplits()
    ensures AllSplitsValid(LateCollections())
  {
    var cs := LateCollections();
    assert cs[0].swaps[..1] == [cs[0].swaps[0]] && cs[1].swaps[..1] == [cs[1].swaps[0]];
    OneSplit(cs[0].swaps[0]);
    OneSplit(cs[1].swaps[0]);
  }

  lemma OneSplit(s: Swap)
    ensures SplitTotal([s]) == s.split
  {
    assert [s][..0] == [];
  }

  /**
   Without standing together, a validated route can pay a token after a swap has taken it: the first
   swap to take it then splits only what had come in.
   */
  lemma ValidationAllowsLatePayment()
    ensures Validated(LateRoute()) && !Topological(LateRoute())
    ensures StandsLate(LateRoute(), 1, 2) && LateRoute()[2].tokenOut == LateRoute()[1].tokenIn
  {
    hide AreCollections, AllSplitsValid, Connected, NoDeadEnd, CyclesValid, Collections;
    var swaps := LateRoute();
    LateCollected();
    LateConnected();
    LateSplits();
    LateEnds();
    LateCycles();
    assert swaps[0] in swaps && IsSplit(swaps);
    LateOrder();
  }

  lemma LateEnds()
    ensures NoDeadEnd(LateCollections(), 2)
  {
    var cs := LateCollections();
    assert cs[1].token == 1 && TakenOn(cs, 1);
  }

  lemma LateCycles()
    ensures CyclesValid(LateRoute(), LateCollections())
  {}

  lemma LateOrder()
    ensures !Topological(LateRoute()) && StandsLate(LateRoute(), 1, 2)
  {
    var swaps := LateRoute();
    assert swaps[2].tokenOut == swaps[1].tokenIn;
    hide First;
    assert swaps[0].tokenIn == 0 && swaps[1].tokenIn == 1;
    assert First(swaps, 0) == 0 && First(swaps, 1) > 0;
  }
}
