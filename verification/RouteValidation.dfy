/**
 The checks a route passes before it is used. A split route is checked group by group: the swaps that
 take one token, in order of first appearance. Each check accepts exactly what its predicate says.
 */
module RouteValidation {
  import opened Wrappers
  import opened Routes

  /** The swaps that divide the balance of one token. */
  datatype Collection = Collection(token: Token, swaps: seq<Swap>)

  /** The swaps taking `t`, in order. */
  function Takers(swaps: seq<Swap>, t: Token): seq<Swap> {
    if |swaps| == 0 then []
    else
      var n := |swaps| - 1;
      Takers(swaps[..n], t) + if swaps[n].tokenIn == t then [swaps[n]] else []
  }

  lemma {:induction false} TakersAre(swaps: seq<Swap>, t: Token)
    ensures forall s :: s in Takers(swaps, t) <==> s in swaps && s.tokenIn == t
  {
    if |swaps| > 0 {
      var n := |swaps| - 1;
      TakersAre(swaps[..n], t);
      assert swaps == swaps[..n] + [swaps[n]];
    }
  }

  /** The position of the first swap taking `t`, or the number of swaps. */
  function First(swaps: seq<Swap>, t: Token): (f: nat)
    ensures f <= |swaps| && (f < |swaps| ==> swaps[f].tokenIn == t)
    ensures forall i | 0 <= i < f :: swaps[i].tokenIn != t
  {
    if |swaps| == 0 then 0
    else
      var n := |swaps| - 1;
      var f := First(swaps[..n], t);
      if f < n then f else if swaps[n].tokenIn == t then n else n + 1
  }

  /** The collections of the first `k` swaps: each token once, in order of first appearance. */
  ghost predicate AreCollections(swaps: seq<Swap>, k: nat, cs: seq<Collection>)
    requires k <= |swaps|
  {
    && (forall c | 0 <= c < |cs| :: HoldsTakers(swaps, k, cs[c]))
    && (forall a, b | 0 <= a < b < |cs| :: AppearsBefore(swaps, k, cs[a].token, cs[b].token))
    && (forall i | 0 <= i < k :: HasCollection(cs, swaps[i].tokenIn))
  }

  ghost predicate HoldsTakers(swaps: seq<Swap>, k: nat, c: Collection)
    requires k <= |swaps|
  {
    c.swaps == Takers(swaps[..k], c.token) && |c.swaps| > 0
  }

  ghost predicate AppearsBefore(swaps: seq<Swap>, k: nat, t: Token, u: Token)
    requires k <= |swaps|
  {
    First(swaps[..k], t) < First(swaps[..k], u)
  }

  ghost predicate HasCollection(cs: seq<Collection>, t: Token) {
    exists c :: 0 <= c < |cs| && cs[c].token == t
  }

  /** The collection that takes `t`, or the number of collections. */
  function Find(cs: seq<Collection>, t: Token): (c: nat)
    ensures c <= |cs| && (c < |cs| ==> cs[c].token == t)
    ensures forall i | 0 <= i < c :: cs[i].token != t
  {
    if |cs| == 0 then 0 else if cs[0].token == t then 0 else 1 + Find(cs[1..], t)
  }

  /** Groups the swaps by the token they take. */
  method BranchCollections(swaps: seq<Swap>) returns (cs: seq<Collection>)
    ensures AreCollections(swaps, |swaps|, cs) && cs == Collections(swaps, |swaps|)
  {
    cs := [];
    for i := 0 to |swaps|
      invariant AreCollections(swaps, i, cs) && cs == Collections(swaps, i)
    {
      var t := swaps[i].tokenIn;
      var c := Find(cs, t);
      AddSwap(swaps, i, cs);
      hide AreCollections;
      if c < |cs| {
        cs := cs[c := Collection(t, cs[c].swaps + [swaps[i]])];
      } else {
        cs := cs + [Collection(t, [swaps[i]])];
      }
    }
  }

  lemma TakersStep(swaps: seq<Swap>, i: nat, t: Token)
    requires i < |swaps|
    ensures Takers(swaps[..i + 1], t)
         == if swaps[i].tokenIn == t then Takers(swaps[..i], t) + [swaps[i]] else Takers(swaps[..i], t)
  {
    assert swaps[..i + 1][..i] == swaps[..i];
  }

  lemma FirstStep(swaps: seq<Swap>, i: nat, t: Token)
    requires i < |swaps|
    ensures First(swaps[..i], t) < i ==> First(swaps[..i + 1], t) == First(swaps[..i], t)
    ensures First(swaps[..i], t) == i && swaps[i].tokenIn == t ==> First(swaps[..i + 1], t) == i
  {
    assert swaps[..i + 1][..i] == swaps[..i];
  }

  /** The collections after one more swap. */
  function WithSwap(cs: seq<Collection>, swap: Swap): seq<Collection> {
    var c := Find(cs, swap.tokenIn);
    if c < |cs| then cs[c := Collection(swap.tokenIn, cs[c].swaps + [swap])]
    else cs + [Collection(swap.tokenIn, [swap])]
  }

  /** The collections of the first `k` swaps, swap by swap. */
  function Collections(swaps: seq<Swap>, k: nat): seq<Collection>
    requires k <= |swaps|
  {
    if k == 0 then [] else WithSwap(Collections(swaps, k - 1), swaps[k - 1])
  }

  lemma {:induction false} AddSwap(swaps: seq<Swap>, i: nat, cs: seq<Collection>)
    requires i < |swaps| && AreCollections(swaps, i, cs)
    ensures AreCollections(swaps, i + 1, WithSwap(cs, swaps[i]))
  {
    hide HoldsTakers, AppearsBefore, HasCollection;
    var after := WithSwap(cs, swaps[i]);
    forall d | 0 <= d < |after|
      ensures HoldsTakers(swaps, i + 1, after[d])
    {
      AddToCollection(swaps, i, cs, d);
    }
    forall a, b | 0 <= a < b < |after|
      ensures AppearsBefore(swaps, i + 1, after[a].token, after[b].token)
    {
      KeepOrder(swaps, i, cs, a, b);
    }
    forall j | 0 <= j < i + 1
      ensures HasCollection(after, swaps[j].tokenIn)
    {
      assert j < i ==> HasCollection(cs, swaps[j].tokenIn);
      KeepCollection(cs, swaps[i], swaps[j].tokenIn);
    }
  }

  lemma KeepCollection(cs: seq<Collection>, swap: Swap, t: Token)
    requires t == swap.tokenIn || HasCollection(cs, t)
    ensures HasCollection(WithSwap(cs, swap), t)
  {
    var after := WithSwap(cs, swap);
    if t == swap.tokenIn {
      assert after[Find(cs, t)].token == t;
    } else {
      var c :| 0 <= c < |cs| && cs[c].token == t;
      assert after[c].token == t;
    }
  }

  lemma TakenWithin(swaps: seq<Swap>, k: nat, c: Collection)
    requires k <= |swaps| && HoldsTakers(swaps, k, c)
    ensures First(swaps[..k], c.token) < k
  {
    TakersAre(swaps[..k], c.token);
    assert c.swaps[0] in Takers(swaps[..k], c.token);
  }

  lemma {:induction false} AddToCollection(swaps: seq<Swap>, i: nat, cs: seq<Collection>, d: nat)
    requires i < |swaps| && AreCollections(swaps, i, cs) && d < |WithSwap(cs, swaps[i])|
    ensures HoldsTakers(swaps, i + 1, WithSwap(cs, swaps[i])[d])
  {
    var t, c := swaps[i].tokenIn, Find(cs, swaps[i].tokenIn);
    TakersStep(swaps, i, WithSwap(cs, swaps[i])[d].token);
    if d < |cs| {
      assert HoldsTakers(swaps, i, cs[d]);
      assert c < d ==> AppearsBefore(swaps, i, cs[c].token, cs[d].token);
    } else {
      NewTokenUnseen(swaps, i, cs);
      NoTakers(swaps[..i], t);
    }
  }

  lemma {:induction false} KeepOrder(swaps: seq<Swap>, i: nat, cs: seq<Collection>, a: nat, b: nat)
    requires i < |swaps| && AreCollections(swaps, i, cs) && a < b < |WithSwap(cs, swaps[i])|
    ensures AppearsBefore(swaps, i + 1, WithSwap(cs, swaps[i])[a].token, WithSwap(cs, swaps[i])[b].token)
  {
    hide First, Takers;
    var t, u := WithSwap(cs, swaps[i])[a].token, WithSwap(cs, swaps[i])[b].token;
    assert t == cs[a].token && HoldsTakers(swaps, i, cs[a]);
    TakenWithin(swaps, i, cs[a]);
    FirstStep(swaps, i, t);
    FirstStep(swaps, i, u);
    if b < |cs| {
      assert u == cs[b].token && HoldsTakers(swaps, i, cs[b]);
      TakenWithin(swaps, i, cs[b]);
      assert AppearsBefore(swaps, i, cs[a].token, cs[b].token);
    } else {
      NewTokenUnseen(swaps, i, cs);
    }
  }

  lemma NewTokenUnseen(swaps: seq<Swap>, i: nat, cs: seq<Collection>)
    requires i < |swaps| && AreCollections(swaps, i, cs) && Find(cs, swaps[i].tokenIn) == |cs|
    ensures forall j | 0 <= j < i :: swaps[j].tokenIn != swaps[i].tokenIn
    ensures First(swaps[..i], swaps[i].tokenIn) == i
  {
    forall j | 0 <= j < i
      ensures swaps[j].tokenIn != swaps[i].tokenIn
    {
      assert HasCollection(cs, swaps[j].tokenIn);
    }
  }

  lemma {:induction false} NoTakers(swaps: seq<Swap>, t: Token)
    requires forall s | s in swaps :: s.tokenIn != t
    ensures Takers(swaps, t) == []
  {
    if |swaps| > 0 {
      NoTakers(swaps[..|swaps| - 1], t);
    }
  }

  // ---------------------------------------------------------------- split fractions

  function SplitTotal(g: seq<Swap>): real {
    if |g| == 0 then 0.0 else SplitTotal(g[..|g| - 1]) + g[|g| - 1].split
  }

  /** A lone swap takes everything; of several, all but the last take a fraction and leave a rest. */
  ghost predicate SplitsValid(g: seq<Swap>)
    requires |g| > 0
  {
    if |g| == 1 then g[0].split == 0.0
    else
      && (forall i | 0 <= i < |g| - 1 :: 0.0 < g[i].split < 1.0)
      && g[|g| - 1].split == 0.0
      && SplitTotal(g[..|g| - 1]) < 1.0
  }

  method ValidateSplitAmounts(cs: seq<Collection>) returns (ok: bool)
    requires forall c | 0 <= c < |cs| :: |cs[c].swaps| > 0
    ensures ok <==> forall c | 0 <= c < |cs| :: SplitsValid(cs[c].swaps)
  {
    for c := 0 to |cs|
      invariant forall d | 0 <= d < c :: SplitsValid(cs[d].swaps)
    {
      var g := cs[c].swaps;
      if |g| == 1 {
        if g[0].split != 0.0 {
          return false;
        }
      } else {
        var sum := 0.0;
        var last := |g| - 1;
        for i := 0 to |g|
          invariant forall j | 0 <= j < i && j < last :: 0.0 < g[j].split < 1.0
          invariant i == |g| ==> g[last].split == 0.0
          invariant sum == SplitTotal(g[..if i < last then i else last])
        {
          if i < last {
            if g[i].split <= 0.0 || g[i].split >= 1.0 {
              return false;
            }
            assert g[..i + 1][..i] == g[..i];
            sum := sum + g[i].split;
          } else if g[i].split != 0.0 {
            return false;
          }
        }
        if sum >= 1.0 {
          return false;
        }
      }
    }
    return true;
  }

  // ---------------------------------------------------------------- connectivity

  /** A swap of the collection that takes `x` pays `y`. */
  ghost predicate Leads(cs: seq<Collection>, x: Token, y: Token) {
    exists c, s :: 0 <= c < |cs| && cs[c].token == x && s in cs[c].swaps && s.tokenOut == y
  }

  ghost predicate IsPath(cs: seq<Collection>, w: seq<Token>) {
    |w| > 0 && forall j | 0 < j < |w| :: Leads(cs, w[j - 1], w[j])
  }

  ghost predicate Reachable(cs: seq<Collection>, from: Token, to: Token) {
    exists w :: IsPath(cs, w) && w[0] == from && w[|w| - 1] == to
  }

  /** Every collection's token can be reached from the first one's. */
  ghost predicate Connected(cs: seq<Collection>)
    requires |cs| > 0
  {
    forall c | 0 <= c < |cs| :: Reachable(cs, cs[0].token, cs[c].token)
  }

  lemma ReachableItself(cs: seq<Collection>, t: Token)
    ensures Reachable(cs, t, t)
  {
    assert IsPath(cs, [t]);
  }

  lemma ReachableNext(cs: seq<Collection>, from: Token, x: Token, y: Token)
    requires Reachable(cs, from, x) && Leads(cs, x, y)
    ensures Reachable(cs, from, y)
  {
    hide Leads;
    var w :| IsPath(cs, w) && w[0] == from && w[|w| - 1] == x;
    var longer := w + [y];
    forall j | 0 < j < |longer|
      ensures Leads(cs, longer[j - 1], longer[j])
    {
      assert j < |w| ==> Leads(cs, w[j - 1], w[j]);
    }
    assert IsPath(cs, longer);
  }

  /** Every token that swaps lead to from a token of `reached` is in `reached`, but for the tokens still to visit. */
  ghost predicate ClosedBut(cs: seq<Collection>, reached: set<Token>, pending: seq<Token>) {
    forall x, y | x in reached && x !in pending && Leads(cs, x, y) :: y in reached
  }

  lemma {:induction false} PathStaysInside(cs: seq<Collection>, reached: set<Token>, w: seq<Token>)
    requires ClosedBut(cs, reached, []) && IsPath(cs, w) && w[0] in reached
    ensures w[|w| - 1] in reached
  {
    hide Leads;
    if |w| > 1 {
      var shorter := w[..|w| - 1];
      forall j | 0 < j < |shorter|
        ensures Leads(cs, shorter[j - 1], shorter[j])
      {
        assert Leads(cs, w[j - 1], w[j]);
      }
      PathStaysInside(cs, reached, shorter);
      assert Leads(cs, w[|w| - 2], w[|w| - 1]);
    }
  }

  function Payments(cs: seq<Collection>): set<Token> {
    set c, s | 0 <= c < |cs| && s in cs[c].swaps :: s.tokenOut
  }

  /** The swaps of one collection, visited from the token it takes. */
  method Visit(cs: seq<Collection>, token: Token, reached: set<Token>, pending: seq<Token>)
    returns (reached': set<Token>, pending': seq<Token>)
    requires UniqueTokens(cs)
    ensures reached <= reached' <= reached + Payments(cs)
    ensures forall y | Leads(cs, token, y) :: y in reached'
    ensures forall y | y in reached' && y !in reached :: Leads(cs, token, y) && y in pending'
    ensures forall y | y in pending :: y in pending'
    ensures forall y | y in pending' :: y in pending || y in reached'
    ensures reached' == reached ==> pending' == pending
  {
    reached', pending' := reached, pending;
    var c := Find(cs, token);
    if c < |cs| {
      for i := 0 to |cs[c].swaps|
        invariant reached <= reached' <= reached + Payments(cs)
        invariant forall j | 0 <= j < i :: cs[c].swaps[j].tokenOut in reached'
        invariant forall y | y in reached' && y !in reached :: Leads(cs, token, y) && y in pending'
        invariant forall y | y in pending :: y in pending'
        invariant forall y | y in pending' :: y in pending || y in reached'
        invariant reached' == reached ==> pending' == pending
      {
        var out := cs[c].swaps[i].tokenOut;
        assert cs[c].swaps[i] in cs[c].swaps;
        assert Leads(cs, token, out);
        if out !in reached' {
          reached' := reached' + {out};
          pending' := pending' + [out];
        }
      }
    }
    OnlyFound(cs, token, c);
  }

  /** No two collections take the same token. */
  ghost predicate UniqueTokens(cs: seq<Collection>) {
    forall a, b | 0 <= a < b < |cs| :: cs[a].token != cs[b].token
  }

  lemma OnlyFound(cs: seq<Collection>, token: Token, c: nat)
    requires UniqueTokens(cs) && c == Find(cs, token)
    ensures forall y | Leads(cs, token, y) :: c < |cs| && exists s :: s in cs[c].swaps && s.tokenOut == y
  {}

  /** Breadth-first search from the first collection's token. */
  method ValidateConnectivity(cs: seq<Collection>) returns (ok: bool)
    requires |cs| > 0 && UniqueTokens(cs)
    ensures ok <==> Connected(cs)
  {
    hide Leads, Payments, Reachable;
    var first := cs[0].token;
    var reached, pending := {first}, [first];
    ghost var all := Payments(cs) + {first};
    ReachableItself(cs, first);
    while pending != []
      invariant reached <= all && first in reached
      invariant forall t | t in reached :: Reachable(cs, first, t)
      invariant forall t | t in pending :: t in reached
      invariant ClosedBut(cs, reached, pending)
      decreases |all - reached|, |pending|
    {
      var token := pending[0];
      ghost var before, rest := reached, pending[1..];
      assert pending == [token] + rest;
      reached, pending := Visit(cs, token, reached, pending[1..]);
      forall y | y in reached
        ensures Reachable(cs, first, y)
      {
        if y !in before {
          ReachableNext(cs, first, token, y);
        }
      }
      Smaller(all, before, reached);
    }
    ok := true;
    for c := 0 to |cs|
      invariant ok <==> forall d | 0 <= d < c :: cs[d].token in reached
    {
      if cs[c].token !in reached {
        ok := false;
      }
    }
    ReachedIsReachable(cs, reached);
  }

  lemma Smaller(all: set<Token>, before: set<Token>, after: set<Token>)
    requires before <= after <= all
    ensures after != before ==> |all - after| < |all - before|
    ensures after == before ==> all - after == all - before
  {
    if after != before {
      var t :| t in after && t !in before;
      assert all - after <= (all - before) - {t};
      Subset(all - after, (all - before) - {t});
    }
  }

  lemma {:induction false} Subset(a: set<Token>, b: set<Token>)
    requires a <= b
    ensures |a| <= |b|
  {
    if a != {} {
      var t :| t in a;
      Subset(a - {t}, b - {t});
    }
  }

  lemma ReachedIsReachable(cs: seq<Collection>, reached: set<Token>)
    requires |cs| > 0 && cs[0].token in reached && ClosedBut(cs, reached, [])
    requires forall t | t in reached :: Reachable(cs, cs[0].token, t)
    ensures forall c | 0 <= c < |cs| :: cs[c].token in reached <==> Reachable(cs, cs[0].token, cs[c].token)
  {
    forall c | 0 <= c < |cs| && Reachable(cs, cs[0].token, cs[c].token)
      ensures cs[c].token in reached
    {
      var w :| IsPath(cs, w) && w[0] == cs[0].token && w[|w| - 1] == cs[c].token;
      PathStaysInside(cs, reached, w);
    }
  }

  // ---------------------------------------------------------------- dead ends

  /** Every swap pays the terminal token or the token of a collection after the first. */
  ghost predicate NoDeadEnd(cs: seq<Collection>, terminal: Token) {
    forall c, s | 0 <= c < |cs| && s in cs[c].swaps :: s.tokenOut == terminal || TakenOn(cs, s.tokenOut)
  }

  ghost predicate TakenOn(cs: seq<Collection>, t: Token) {
    exists d :: 0 < d < |cs| && cs[d].token == t
  }

  method ValidateDeadEnds(cs: seq<Collection>, terminal: Token) returns (ok: bool)
    requires |cs| > 0
    ensures ok <==> NoDeadEnd(cs, terminal)
  {
    var taken: set<Token> := {};
    for d := 1 to |cs|
      invariant forall t :: t in taken <==> exists b :: 0 < b < d && cs[b].token == t
    {
      taken := taken + {cs[d].token};
    }
    assert forall t :: t in taken <==> TakenOn(cs, t);
    hide TakenOn;
    for c := 0 to |cs|
      invariant forall d, s | 0 <= d < c && s in cs[d].swaps :: s.tokenOut == terminal || s.tokenOut in taken
    {
      for i := 0 to |cs[c].swaps|
        invariant forall j | 0 <= j < i :: cs[c].swaps[j].tokenOut == terminal || cs[c].swaps[j].tokenOut in taken
      {
        if cs[c].swaps[i].tokenOut !in taken && cs[c].swaps[i].tokenOut != terminal {
          assert cs[c].swaps[i] in cs[c].swaps;
          return false;
        }
      }
    }
    return true;
  }

  // ---------------------------------------------------------------- cycles

  /** Swaps of collection `b` may not pay the token of `b` or of an earlier collection, but for a round trip. */
  ghost predicate NoCycle(cs: seq<Collection>, roundTrip: bool, first: Token) {
    forall a, b, s | 0 <= a <= b < |cs| && s in cs[b].swaps && s.tokenOut == cs[a].token ::
      roundTrip && s.tokenOut == first
  }

  method ValidateCycles(cs: seq<Collection>, terminal: Token) returns (ok: bool)
    requires |cs| > 0
    ensures ok <==> NoCycle(cs, cs[0].token == terminal, cs[0].token) && (cs[0].token == terminal ==> |cs| > 1)
  {
    var first := cs[0].token;
    var roundTrip := first == terminal;
    if roundTrip && |cs| <= 1 {
      return false;
    }
    var earlier: set<Token> := {};
    for b := 0 to |cs|
      invariant forall t :: t in earlier <==> exists a :: 0 <= a < b && cs[a].token == t
      invariant NoCycle(cs[..b], roundTrip, first)
    {
      earlier := earlier + {cs[b].token};
      assert forall t :: t in earlier <==> exists a :: 0 <= a <= b && cs[a].token == t;
      for i := 0 to |cs[b].swaps|
        invariant forall j | 0 <= j < i && cs[b].swaps[j].tokenOut in earlier ::
                    roundTrip && cs[b].swaps[j].tokenOut == first
      {
        var out := cs[b].swaps[i].tokenOut;
        if out in earlier && !(roundTrip && out == first) {
          var a :| 0 <= a <= b && cs[a].token == out;
          assert cs[b].swaps[i] in cs[b].swaps;
          return false;
        }
      }
    }
    assert cs[..|cs|] == cs;
    return true;
  }

  // ---------------------------------------------------------------- a route without splits

  /** Each swap takes what the one before it pays. */
  ghost predicate IsSequence(swaps: seq<Swap>) {
    forall i | 0 < i < |swaps| :: swaps[i - 1].tokenOut == swaps[i].tokenIn
  }

  /** Swap `i` pays a token that is new, or it is the last and returns to the first token. */
  ghost predicate PaysNew(swaps: seq<Swap>, i: nat)
    requires i < |swaps|
  {
    || (i == |swaps| - 1 && swaps[i].tokenOut == swaps[0].tokenIn)
    || (swaps[i].tokenOut != swaps[0].tokenIn && forall j | 0 <= j < i :: swaps[j].tokenOut != swaps[i].tokenOut)
  }

  datatype ValidationError =
    | EmptyRoute
    | DisconnectedSwaps
    | InvalidSplit
    | DisconnectedSplitStart
    | DisconnectedSplitEnd
    | UnsupportedCycle

  method ValidateSequentialRoute(swaps: seq<Swap>) returns (r: Option<ValidationError>)
    requires |swaps| > 0
    ensures r == Some(DisconnectedSwaps) <==> !IsSequence(swaps)
    ensures r == None <==> IsSequence(swaps) && forall i | 0 <= i < |swaps| :: PaysNew(swaps, i)
    ensures r.Some? ==> r.value == DisconnectedSwaps || r.value == UnsupportedCycle
  {
    for i := 1 to |swaps|
      invariant forall j | 0 < j < i :: swaps[j - 1].tokenOut == swaps[j].tokenIn
    {
      if swaps[i - 1].tokenOut != swaps[i].tokenIn {
        return Some(DisconnectedSwaps);
      }
    }
    var seen := {swaps[0].tokenIn};
    for i := 0 to |swaps|
      invariant forall t :: t in seen <==> t == swaps[0].tokenIn || exists j :: 0 <= j < i && swaps[j].tokenOut == t
      invariant forall j | 0 <= j < i :: PaysNew(swaps, j)
    {
      if swaps[i].tokenOut in seen && !(i == |swaps| - 1 && swaps[i].tokenOut == swaps[0].tokenIn) {
        assert !PaysNew(swaps, i);
        return Some(UnsupportedCycle);
      }
      seen := seen + {swaps[i].tokenOut};
    }
    return None;
  }

  // ---------------------------------------------------------------- the whole validation

  /** All checks on the collections of a split route. */
  ghost predicate ValidSplitRoute(swaps: seq<Swap>, cs: seq<Collection>) {
    && |swaps| > 0 && AreCollections(swaps, |swaps|, cs) && |cs| > 0
    && AllSplitsValid(cs) && Connected(cs) && NoDeadEnd(cs, LastToken(swaps)) && CyclesValid(swaps, cs)
  }

  ghost predicate AllSplitsValid(cs: seq<Collection>) {
    forall c | 0 <= c < |cs| :: |cs[c].swaps| > 0 && SplitsValid(cs[c].swaps)
  }

  /** No swap pays the token of its own or an earlier group, but for a round trip of several groups. */
  ghost predicate CyclesValid(swaps: seq<Swap>, cs: seq<Collection>)
    requires |swaps| > 0
  {
    var roundTrip := swaps[0].tokenIn == LastToken(swaps);
    NoCycle(cs, roundTrip, swaps[0].tokenIn) && (roundTrip ==> |cs| > 1)
  }

  /** The first collection takes the route's first token. */
  lemma FirstCollection(swaps: seq<Swap>, cs: seq<Collection>)
    requires |swaps| > 0 && AreCollections(swaps, |swaps|, cs)
    ensures |cs| > 0 && cs[0].token == swaps[0].tokenIn
  {
    hide HoldsTakers;
    assert HasCollection(cs, swaps[0].tokenIn);
    var c :| 0 <= c < |cs| && cs[c].token == swaps[0].tokenIn;
    assert swaps[..|swaps|] == swaps && First(swaps, swaps[0].tokenIn) == 0;
    forall b | 0 < b < |cs|
      ensures cs[b].token != swaps[0].tokenIn
    {
      assert AppearsBefore(swaps, |swaps|, cs[0].token, cs[b].token);
    }
  }

  lemma CollectionsAreUnique(swaps: seq<Swap>, cs: seq<Collection>)
    requires AreCollections(swaps, |swaps|, cs)
    ensures UniqueTokens(cs) && forall c | 0 <= c < |cs| :: |cs[c].swaps| > 0
  {
    forall a, b | 0 <= a < b < |cs|
      ensures cs[a].token != cs[b].token
    {
      assert AppearsBefore(swaps, |swaps|, cs[a].token, cs[b].token);
    }
    assert forall c | 0 <= c < |cs| :: HoldsTakers(swaps, |swaps|, cs[c]);
  }

  /** The checks on a split route, in the order they are made; the error says which one failed first. */
  method ValidateSplitRoute(swaps: seq<Swap>) returns (r: Option<ValidationError>, cs: seq<Collection>)
    requires |swaps| > 0
    ensures AreCollections(swaps, |swaps|, cs) && cs == Collections(swaps, |swaps|) && |cs| > 0
    ensures r == None <==> ValidSplitRoute(swaps, cs)
    ensures r == Some(InvalidSplit) <==> !AllSplitsValid(cs)
    ensures r == Some(DisconnectedSplitStart) <==> AllSplitsValid(cs) && !Connected(cs)
    ensures r == Some(DisconnectedSplitEnd) <==> AllSplitsValid(cs) && Connected(cs) && !NoDeadEnd(cs, LastToken(swaps))
    ensures r == None || r == Some(InvalidSplit) || r == Some(DisconnectedSplitStart) || r == Some(DisconnectedSplitEnd)
            || r == Some(UnsupportedCycle)
    ensures r == Some(UnsupportedCycle) <==>
              AllSplitsValid(cs) && Connected(cs) && NoDeadEnd(cs, LastToken(swaps)) && !CyclesValid(swaps, cs)
  {
    cs := BranchCollections(swaps);
    FirstCollection(swaps, cs);
    CollectionsAreUnique(swaps, cs);
    hide AreCollections, SplitsValid, NoCycle, Connected, NoDeadEnd, UniqueTokens;
    var ok := ValidateSplitAmounts(cs);
    if !ok {
      return Some(InvalidSplit), cs;
    }
    ok := ValidateConnectivity(cs);
    if !ok {
      return Some(DisconnectedSplitStart), cs;
    }
    ok := ValidateDeadEnds(cs, LastToken(swaps));
    if !ok {
      return Some(DisconnectedSplitEnd), cs;
    }
    ok := ValidateCycles(cs, LastToken(swaps));
    return if ok then None else Some(UnsupportedCycle), cs;
  }

  ghost predicate IsSplit(swaps: seq<Swap>) {
    exists s :: s in swaps && s.split > 0.0
  }

  /** What a route must be to pass: a split route by its collections, another as one sequence. */
  ghost predicate Validated(swaps: seq<Swap>) {
    && |swaps| > 0
    && if IsSplit(swaps) then ValidSplitRoute(swaps, Collections(swaps, |swaps|))
       else IsSequence(swaps) && forall i | 0 <= i < |swaps| :: PaysNew(swaps, i)
  }

  /** The validation of a route. */
  method Validate(swaps: seq<Swap>) returns (r: Option<ValidationError>)
    ensures r == Some(EmptyRoute) <==> |swaps| == 0
    ensures r == None <==> Validated(swaps)
  {
    if |swaps| == 0 {
      return Some(EmptyRoute);
    }
    var split := false;
    for i := 0 to |swaps|
      invariant split <==> exists j :: 0 <= j < i && swaps[j].split > 0.0
    {
      if swaps[i].split > 0.0 {
        split := true;
      }
    }
    assert split <==> IsSplit(swaps);
    hide IsSequence, PaysNew, IsSplit, ValidSplitRoute;
    if split {
      var cs;
      r, cs := ValidateSplitRoute(swaps);
    } else {
      r := ValidateSequentialRoute(swaps);
    }
  }
}
