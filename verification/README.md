# Fynd: exclusive routes, route replay, price streams and connector tokens in Dafny

A Dafny model of four parts of Fynd and proofs about it.

- **Exclusive routes** (`Routes`, `RouteValue`, `RouteLoops`, `RoutePrices`, `RouteFlow`, `Commitment`,
  `DefaultFee`). A route is a list of swaps that forms a token graph. The walk of that graph gives, as an
  exact integer fraction, the route output a token or a leg produces. A commitment says what the user is
  promised, and pinning holds the surplus back at the exclusive legs.
- **Route replay** (`Replay`, `ReplayFlow`, `Division`, `ReplaySplits`, `RouteValidation`, `ValidatedRoutes`).
  Running the swaps in order against a market, with balances, snapshots for splits and an overlay of
  post-swap pool states; how a token's total is divided; the checks a route passes before it is used, and
  what they give the run.
- **The promise behind pinning** (`Shortfall`, `PinnedReplay`, `Guarantee`, `PinnedRoutes`, `SplitTail`). The
  two parts above together: what a validated route run with its leg pinned delivers of what was committed, and
  when exactly it can fall short.
- **Price streams** (`Etag`, `LatestPrices`, `FeedRunner`, `NexusProtocol`). One stream of the nexus
  service, its feed runner and the pods that poll it, as methods and as steps in any interleaving.
- **Connector tokens** (`Connectors`, `Sorting`). Two rankings and the list chosen from them.

`Wrappers`, `Sequences` and `Arithmetic` hold what several parts share.

`dafny verify dfyconfig.toml` checks everything.

## How to read it

The reference for the graph walk is `RoutePrices.AveragePrices`: prices under which a unit of output is worth
one, all that is taken of a token is worth what its takers pay, and a token nobody takes is worth nothing.
The fraction of a token is its total at any such prices, on a loop-free route the walk's own prices are such
prices, and every result about value (conservation, shares, the bound on a leg, the shortfall) follows from
regrouping sums over swaps into sums over tokens.

The guarantee compares two flows through the same swaps, the quoted one and the one with the leg cut. Credit
each swap with no more than it was quoted to pay, and scale each token by how much of its quoted total still
moves, at most all of it. No intermediate token then gains value, so the output falls short by at most what
the leg held back and what each swap loses. A swap loses only by rounding: `Division.ShareNearPart` says a
swap's share of another total is short of its part by one unit for its own split, or one for each split of
its group if it takes the remainder. The slack of `Guarantee.UserGuarantee` is that many units of input at
the swap's quoted rate, at the quoted prices, summed over the swaps that can see another input. It is known
when the route is pinned.

Amounts are natural numbers, as `BigUint` is; every subtraction is a proof obligation. Splits and TVL figures
are reals. A market is the set of tokens it knows, a state per pool, and a function that says what a pool pays.

## What does not hold

- The comment at `fynd-core/src/exclusive_route.rs:299-303` says the user gets at least the committed amount
  when the pools after the leg give less per unit as their input grows. That fails when the leg's token is
  split: rounding the smaller amount can move a unit to a worse branch. `SplitTail.SplitTailBreaksPromise` is
  a run in which the user is promised 4 and gets 3. On a route in topological order, whose leg and later
  swaps go through pools that serve one swap each, the promise less a slack known from the quote holds
  (`Guarantee.UserGuarantee`); validated routes in order that are not round trips are in that order
  (`PinnedRoutes.ValidatedRouteDelivers`). The promise holds in full, and the pinned route is sure to run,
  where no token is divided anew after the leg (`Guarantee.SequentialGuarantee`) or where the splits divide
  the leg's committed amount in the quoted proportions (`Guarantee.ProportionalGuarantee`;
  `SplitTail.SplitTailKeepsPromise` is a split route of that kind). For one split the second condition is
  exact: `SplitTail.PromiseIffProportional`.
- A denominator can be zero: `RouteLoops.ZeroDenominatorWithoutZeroOut` is such a route. On a loop-free route
  all denominators are positive if and only if no swap pays an amount into a token that nothing is taken of
  but from which positive swaps lead to the output (`RouteLoops.DenominatorsPositiveIff`). Pools that pay
  nothing for nothing never do (`RouteLoops.ZeroOutNeverDry`).
- Validation alone does not put a split route in topological order, as the comment at
  `fynd-core/src/types/quote.rs:2181-2183` can be read: `ValidatedRoutes.ValidationAllowsLatePayment` is a
  route that passes all checks and pays a token after a swap has taken it. A validated split route is in
  topological order exactly when no swap that stands behind a later group pays that group's token
  (`ValidatedRoutes.TopologicalIffNoLatePayment`), which is so if groups stand together.

## Model

| member | source | states |
|---|---|---|
| `RouteValue.TokenRouteOutput` | fynd-core/src/exclusive_route.rs:95-129 | the recursion with its path stack computes the walk's fraction; a success leaves the stack as it was, so branches that merge are not taken for a loop |
| `RouteLoops.LoopDetectionExact` | fynd-core/src/exclusive_route.rs:101-103 | the walk from a token fails exactly when some walk of swaps, never onto the output token, revisits a token or the path |
| `RouteLoops.LegLoopExact` | fynd-core/src/exclusive_route.rs:76-91 | a leg has no value exactly when it does not pay the output, something takes its token, and a loop is reachable |
| `RouteLoops.TopologicalNeverLoops` | fynd-core/src/exclusive_route.rs:101-117 | on a topologically ordered route no token is rejected, however branches split and merge |
| `RouteLoops.DenominatorsPositiveIff` | fynd-core/src/exclusive_route.rs:106-125 | on a loop-free route every denominator is positive exactly when no swap pays an amount into a token that nothing is taken of but from which positive swaps lead to the output |
| `RouteLoops.DenominatorPositive` | fynd-core/src/exclusive_route.rs:106-125 | where no such payment is made, the denominator of any walk that succeeds is positive, whatever loops elsewhere |
| `RouteLoops.ZeroOutNeverDry` | fynd-core/src/exclusive_route.rs:112-119 | pools that pay nothing for nothing never make such a payment |
| `RouteLoops.ZeroDenominatorWithoutZeroOut` | fynd-core/src/exclusive_route.rs:115-124 | a concrete route with a zero denominator |
| `RouteLoops.ValueIffReaches` | fynd-core/src/exclusive_route.rs:106-125 | the denominator is positive, and the numerator exactly when swaps with positive output lead from the token to the output |
| `RouteLoops.LegValueIffReaches` | fynd-core/src/exclusive_route.rs:60-61 | a leg's value is positive exactly when it pays something and reaches the output without a loop |
| `RouteLoops.ValidIff` | fynd-core/src/exclusive_route.rs:49-67 | Valid exactly when there is one exclusive leg and it reaches the output; no leg and several legs are told apart |
| `RoutePrices.FractionIsValue` | fynd-core/src/exclusive_route.rs:95-129 | at any prices that satisfy the two pricing rules on the tokens that swaps lead to from the token, numerator over denominator is what its takers make of it, zero terms included |
| `RouteLoops.PathDoesNotMatter` | fynd-core/src/exclusive_route.rs:99-104 | a walk that succeeds gives the same fraction from any smaller path |
| `RoutePrices.WalkPricesAreAverageFrom` | fynd-core/src/exclusive_route.rs:112-119 | from a token whose walk succeeds the walk's own prices satisfy the two rules, whatever loops elsewhere |
| `RoutePrices.WalkPricesAreAverage` | fynd-core/src/exclusive_route.rs:112-119 | on a loop-free route they satisfy them for every token |
| `RoutePrices.LegFractionIsValue` | fynd-core/src/exclusive_route.rs:81-90 | a leg's fraction is its output at the average price of its token, at any prices right from that token on |
| `RouteFlow.ValueIsConserved` | fynd-core/src/exclusive_route.rs:93-129 | on a balanced route the input token is worth the whole output |
| `RouteFlow.AttributionConserved` | fynd-core/src/exclusive_route.rs:93-138 | the fraction computed for the input token equals the total amount out into the output token, exactly |
| `RouteFlow.SharesAddUp` | fynd-core/src/exclusive_route.rs:69-91 | the shares of all legs paying one token add up to that token's value |
| `RouteFlow.LegWithinOutput` | fynd-core/src/exclusive_route.rs:69-91 | on a balanced loop-free route, its swaps listed in any order, no leg is credited with more than the route delivers |
| `Commitment.UserImprovement` | fynd-core/src/exclusive_route.rs:184-192 | the least amount that is at least the share of the improvement, and never more than the improvement |
| `Commitment.MatchedCommitment` | fynd-core/src/exclusive_route.rs:207-240 | made exactly when both gates pass; the least amount that pays the public output and leaves the user the public net and their share, and at most what the route pays |
| `Commitment.MatchedIsLeastShare` | fynd-core/src/exclusive_route.rs:184-239 | in ten-thousandths, the user keeps at least the share of the improvement, and a commitment above the public output no unit more than needed |
| `Commitment.CommitmentFollowsShare` | fynd-core/src/exclusive_route.rs:224-239 | a larger share never lowers the commitment; the whole share leaves no surplus |
| `Commitment.SurplusWithinImprovement` | fynd-core/src/exclusive_route.rs:224-253 | the surplus is at most the rest of the improvement |
| `Commitment.MatchedCanBePinned` | fynd-core/src/exclusive_route.rs:237-252 | a matched commitment covers the gas, the route can pay it, and the user's net is at least the public net plus the rounded-up share |
| `Commitment.LegCutBounds` | fynd-core/src/exclusive_route.rs:296-311 | the cut never exceeds the leg's output, is worth at most the captured amount, and one unit more would be worth more |
| `Commitment.PinnedExactly` | fynd-core/src/exclusive_route.rs:288-313 | pinning leaves other swaps alone and commits each exclusive leg with value to its output less the most whole units worth no more than what it captures |
| `Commitment.PinLegs` | fynd-core/src/exclusive_route.rs:262-316 | for any number of exclusive legs each holds back what it can of what the legs before it left; what is left is the surplus less the sum of the floors, and no other swap changes |
| `Commitment.CapturedExactly` | fynd-core/src/exclusive_route.rs:287-312 | the captures, each the lesser of what is left and what the leg can hold back, add up to exactly the lesser of the surplus and the sum of the floors |
| `Commitment.PinCommitment` | fynd-core/src/exclusive_route.rs:246-327 | committed and surplus add up to what the route pays, the gas is unchanged, nothing underflows, and each swap is pinned as above |
| `DefaultFee.ScaleTruncating` | fynd-core/src/bps.rs:12-14 | the greatest amount that is at most the rate of the amount |
| `DefaultFee.DefaultFeeCommitment` | fynd-core/src/worker_pool_router/mod.rs:1371-1388 | commitment and fee add up to the output; it is made exactly when there is a fee base and the fee is below the user's net, and then covers more than the gas |
| `DefaultFee.FeeIsFiveBasisPoints` | fynd-core/src/worker_pool_router/mod.rs:1371-1388 | what is held back is five ten-thousandths, rounded down, of the whole part of what the first exclusive leg produces of the last swap's token |
| `DefaultFee.NoLegNoCommitment` | fynd-core/src/worker_pool_router/mod.rs:1372-1377 | without a route or an exclusive leg nothing is committed |
| `DefaultFee.FeeNeverUnderflows` | fynd-core/src/worker_pool_router/mod.rs:1377-1381 | on a balanced loop-free route the fee is within the output and within its rate of the leg's value |
| `Replay.SplitAmountIsFloor` | fynd-core/src/algorithm/split_primitives.rs:323-331 | a split takes at most its fraction, short of it by no more than rounding at 18 digits |
| `Replay.SplitAmountClamps` | fynd-core/src/algorithm/split_primitives.rs:323-331 | a split of one or more takes everything, one of zero or less nothing |
| `Replay.RunSwap` | fynd-core/src/replay.rs:147-193 | one turn of the loop on its three maps is one step of the specification, errors included |
| `Replay.SimulateSwaps` | fynd-core/src/replay.rs:131-199 | the loop computes the specified run, one entry per swap, or the first error |
| `ReplayFlow.BalancesConserved` | fynd-core/src/replay.rs:140-198 | at every step and for every token, the start plus all paid equals all taken plus the balance, for any splits; the gas is the sum over swaps |
| `ReplayFlow.SimulateReports` | fynd-core/src/replay.rs:194-198 | the amount reported is what is left of the output token, and the gas is the sum over the swaps |
| `ReplayFlow.ReplayReports` | fynd-core/src/replay.rs:71-94 | a replay starts from all the route takes of its first token and reports what is left of its last: all that is paid of it, where it is another token that nothing takes |
| `ReplayFlow.SnapshotsComplete` | fynd-core/src/replay.rs:137-161 | a token paid only before it is taken has a snapshot exactly once taken, and it is all that is ever collected of it |
| `ReplayFlow.RunDrains` | fynd-core/src/replay.rs:153-173 | a token that is paid only before it is taken, by a group that ends in a remainder, ends at zero and is taken in full, whatever the rest of the route |
| `ReplayFlow.AllFlowReachesOutput` | fynd-core/src/replay.rs:137-198 | without dead ends, and if only the output token is paid after it was taken, nothing is left at the end but the output token |
| `ReplayFlow.OverlayIsMarketAfter` | fynd-core/src/replay.rs:143-192 | the overlay holds each pool where the swaps through it left it, and each swap pays what its pool pays after exactly the earlier swaps through it |
| `ReplayFlow.FailureIsFirstFailure` | fynd-core/src/replay.rs:148-185 | a run that fails fails at one swap, after all before it ran, with the error of the first check that swap failed |
| `ReplayFlow.ReplayFailure` | fynd-core/src/replay.rs:71-94 | a replay fails as empty exactly on the empty route, and otherwise at one swap with that swap's error |
| `Division.TakeIsShare` | fynd-core/src/replay.rs:153-173 | in every run each swap takes its share of all that is collected of its token, a function of that total and the splits alone |
| `Division.CapNeverBites` | fynd-core/src/replay.rs:165-173 | if the positive splits of each token add up to at most one and come before its remainder, each split swap takes exactly its part of the snapshot, in whatever order the route pays and takes its tokens |
| `Division.SplitTakesPartOfAll` | fynd-core/src/replay.rs:137-173 | of a token paid only before it is taken, that is its part of all that is ever collected, and the parts taken so far fit |
| `Division.ShareNearPart` | fynd-core/src/algorithm/split_primitives.rs:323-331 | dividing any other total, a swap is short of its part by at most one unit for its split, or one for each split of its group if it takes the remainder; of a larger total it is short of its old share by no more |
| `ReplaySplits.OrderInGroupDoesNotMatter` | fynd-core/src/replay.rs:147-193 | if the positive splits of each token add up to at most one and come before its remainder, exchanging two adjacent split swaps of one token through different pools changes no amount, gas or output, and neither the balances nor the pool states the run leaves; no order of tokens is asked for |
| `ReplaySplits.RunIgnoresAmounts` | fynd-core/src/replay.rs:64-66 | a run does not read the amounts its swaps carry |
| `ReplaySplits.ReplayIsFixpoint` | fynd-core/src/replay.rs:71-94 | if the input token's group ends in a remainder and nothing pays that token before it has, writing the simulated amounts back and replaying gives the same swaps, output and gas; a round trip may pay it back later |
| `RouteValidation.BranchCollections` | fynd-core/src/types/quote.rs:2184-2201 | each token once, in order of first appearance, with all swaps taking it in order |
| `RouteValidation.ValidateSplitAmounts` | fynd-core/src/types/quote.rs:2203-2255 | accepts exactly when each group is one remainder, or fractions below one in total before a remainder |
| `RouteValidation.ValidateCycles` | fynd-core/src/types/quote.rs:2322-2356 | accepts exactly when no swap pays the token of its own or an earlier group, but for a round trip of several groups |
| `RouteValidation.ValidateConnectivity` | fynd-core/src/types/quote.rs:2260-2287 | the breadth-first search accepts exactly when a path of swaps leads from the first group's token to every group's token |
| `RouteValidation.ValidateDeadEnds` | fynd-core/src/types/quote.rs:2291-2316 | accepts exactly when every swap pays the terminal token or the token of a group after the first |
| `RouteValidation.ValidateSplitRoute` | fynd-core/src/types/quote.rs:2159-2174 | accepts exactly the routes that pass all four checks, round trips included, and otherwise says which check failed first |
| `RouteValidation.ValidateSequentialRoute` | fynd-core/src/types/quote.rs:2111-2144 | accepts exactly when each swap takes what the one before paid and no token repeats but for a return to the first at the end |
| `RouteValidation.Validate` | fynd-core/src/types/quote.rs:2095-2103 | an empty route fails as such; a route passes exactly when it is validated as a split or as a sequential one |
| `ValidatedRoutes.ValidatedIff` | fynd-core/src/types/quote.rs:2095-2150 | a route with a positive split passes exactly when its swaps meet the four rules below; any other exactly when it is one sequence that takes no token twice and its last token not in between |
| `ValidatedRoutes.SplitRouteIff` | fynd-core/src/types/quote.rs:2159-2174 | the four split checks, said of the swaps alone: all but the last to take a token take a fraction and leave a rest, swaps lead from the first token to every token taken, every token paid is the last or taken on, and payments go to tokens first taken later but for a round trip |
| `ValidatedRoutes.SequenceIff` | fynd-core/src/types/quote.rs:2122-2143 | a sequence passes exactly when no token is taken twice and the last is not taken in between |
| `ValidatedRoutes.ValidatedRestIsTaken` | fynd-core/src/types/quote.rs:2246-2253 | in a validated split route the swap that takes the rest of a token gets some of it whenever there is any |
| `ValidatedRoutes.ValidatedRouteReplays` | fynd-core/src/types/quote.rs:2095-2175 | a validated route, split ones with groups that stand together, has groups that end in a remainder, fractions that fit, no token but the output paid after it was taken, no dead end, and no swap that takes a token nothing paid before; unless a round trip it is in topological order |
| `ValidatedRoutes.ValidatedFlowReachesOutput` | fynd-core/src/types/quote.rs:2289-2316 | replaying such a route leaves nothing behind but its output token, round trips included |
| `ValidatedRoutes.TopologicalIffNoLatePayment` | fynd-core/src/types/quote.rs:2318-2356 | a validated split route is in topological order exactly when no swap that stands behind a later group pays that group's token |
| `ValidatedRoutes.GroupedIffNoneLate` | fynd-core/src/types/quote.rs:2176-2201 | groups stand together exactly when no swap stands behind a later group |
| `ValidatedRoutes.ValidationAllowsLatePayment` | fynd-core/src/types/quote.rs:2159-2174 | a route that passes all checks and is not in topological order |
| `Shortfall.ShortfallBound` | fynd-core/src/exclusive_route.rs:299-311 | of any two drained flows through the same swaps, the second delivers at least the first's output less what the leg held back and, for each swap that takes a token first taken after the leg, the units it is short of its part and the units its pool rounds, at average prices |
| `PinnedReplay.UpToLeg` | fynd-core/src/replay.rs:147-193 | pinning changes nothing before the leg, and the leg takes its quoted input and pays the lesser of its output and the commitment |
| `PinnedReplay.RunDivides` | fynd-core/src/replay.rs:153-173 | in a whole run each swap takes its share of all that is taken of its token |
| `PinnedReplay.PinnedRunSucceeds` | fynd-core/src/replay.rs:174-184 | if the pools after the leg serve every amount, the pinned run succeeds whenever the quoted one did |
| `Guarantee.HeldBackWithinSurplus` | fynd-core/src/exclusive_route.rs:296-311 | what the leg holds back is worth no more than the surplus |
| `Guarantee.UserGuarantee` | fynd-core/src/exclusive_route.rs:283-315 | a pinned route that runs delivers at least the committed amount less the slack, for pools after the leg that have diminishing returns up to a given rounding and serve one swap each; the slack and all conditions are known from the quote, and it runs if those pools serve every amount |
| `Guarantee.PinnedShrinks` | fynd-core/src/exclusive_route.rs:299-303 | where every token divided anew is divided exactly, the pinned run succeeds and no swap takes or pays more than quoted |
| `Guarantee.ProportionalGuarantee` | fynd-core/src/exclusive_route.rs:283-315 | where the splits divide what the leg's token has left in the quoted proportions, which the quote and the commitment tell, the pinned route runs and delivers the committed amount, less only what the pools round |
| `Guarantee.SequentialGuarantee` | fynd-core/src/exclusive_route.rs:283-315 | the same when no token is divided anew after the leg |
| `PinnedRoutes.ValidatedRouteDelivers` | fynd-core/src/exclusive_route.rs:246-327 | a validated route in order, not a round trip, with one exclusive leg that reaches its output and single-use pools from the leg on, meets the order the guarantee asks for and delivers its commitment less the slack |
| `PinnedRoutes.MatchedRouteDelivers` | fynd-core/src/exclusive_route.rs:213-327 | committed against a public route, such a route pays the user at least the public output, and the public net plus the rounded-up share of the improvement, each less the slack |
| `SplitTail.SplitTailBreaksPromise` | fynd-core/src/exclusive_route.rs:299-303 | a split route with constant rates that meets all conditions, in which the user is promised 4 and gets 3 |
| `SplitTail.SplitTailKeepsPromise` | fynd-core/src/exclusive_route.rs:299-311 | a split route with a surplus of 3 that divides exactly and delivers the committed 3 |
| `SplitTail.PromiseIffProportional` | fynd-core/src/exclusive_route.rs:299-311 | for a leg whose token is split, the pinned run delivers the commitment for all rates and commitments that pin the leg to an amount exactly when the splits divide that amount in the same proportions as the quoted one |
| `Etag.DecimalRoundTrip` | fynd-nexus/src/latest_prices.rs:63-69 | reading a written number back gives the number |
| `Etag.TagReadsBack` | fynd-nexus/src/latest_prices.rs:63-69 | a tag is the two numbers in decimal, in quotes and with a dash between them |
| `Etag.TagInjective` | fynd-nexus/src/latest_prices.rs:63-69 | different run ids or sequence numbers give different tags |
| `LatestPrices.LatestPrices.constructor` | fynd-nexus/src/latest_prices.rs:90-99 | a new stream awaits its first snapshot and has no message |
| `LatestPrices.LatestPrices.Current` | fynd-nexus/src/latest_prices.rs:119-126 | the message, if any, carries this run's id and the record's sequence number and says what the state says |
| `LatestPrices.LatestPrices.PublishPrices` | fynd-nexus/src/latest_prices.rs:136-144 | the message becomes a version 1 snapshot of the prices given and the time given, with this run's id and the next sequence number; the record stays consistent |
| `LatestPrices.LatestPrices.WithdrawPrices` | fynd-nexus/src/latest_prices.rs:146-164 | the message becomes a version 1 withdrawal with the next sequence number unless it is one already, and the record stays consistent |
| `LatestPrices.WithdrawKeepsAge` | fynd-nexus/src/latest_prices.rs:147-163 | withdrawing twice is withdrawing once, and the newest price time is kept |
| `FeedRunner.FollowFeed` | fynd-nexus/src/feed_runner.rs:93-128 | however the feed ends the stream is left withdrawn, and the decision is to stop exactly if it ends with a fatal or invalid-input failure |
| `FeedRunner.RunFeed` | fynd-nexus/src/feed_runner.rs:58-89 | returns exactly at the first start that fails with a fatal or invalid-input error or whose feed ends with one, and leaves no prices |
| `FeedRunner.HoldsWhatWasPublished` | fynd-nexus/src/feed_runner.rs:100-102 | after a publish the message is a snapshot of the very prices published and their time |
| `FeedRunner.ServesIffLastPublished` | fynd-nexus/src/feed_runner.rs:100-106 | while a feed runs the stream has prices exactly when its latest event was a publish |
| `NexusProtocol.AlwaysInv` | fynd-nexus/src/latest_prices.rs:120-164 | every step of every run keeps the invariant of record, runner, messages issued and pods |
| `NexusProtocol.NotModifiedIffCurrent` | fynd-nexus/src/api.rs:99-111 | over every run with fresh run ids, a pod is told 304 exactly when it holds a tag and the message stored with it is the current one |
| `NexusProtocol.AnswerIsCurrent` | fynd-nexus/src/api.rs:94-116 | 204 exactly while awaiting; 200 carries the current message and its tag; 304 carries the current tag |
| `NexusProtocol.NoUpdateLost` | fynd-nexus/src/latest_prices.rs:138-163 | the sequence number is the number of writes of prices and of withdrawals since the last restart, and message and state agree |
| `NexusProtocol.WriteFollowsRead` | fynd-nexus/src/latest_prices.rs:138-163 | a write replaces the record its earlier read saw: record and run are the same from the read to the write, and what is written is a snapshot of the prices read for, or a withdrawal, with the next number |
| `NexusProtocol.ServesWhatWasPublished` | fynd-nexus/src/latest_prices.rs:136-144 | whenever the stream serves prices they are the very prices of one publish with the time it came, and nothing was written since |
| `NexusProtocol.SeqNeverGoesDown` | fynd-nexus/src/latest_prices.rs:119-126 | within a run a reader sees sequence numbers that never go down |
| `NexusProtocol.PodNeverGoesBack` | fynd-core/src/nexus/price_levels/feed.rs:209-306 | a pod never applies a message twice nor one older than one it applied, also across restarts |
| `NexusProtocol.PodAppliesNewer` | fynd-core/src/nexus/price_levels/feed.rs:209-306 | a pod applies a message exactly when it can read it, it was written after all it applied, and it is a withdrawal or a usable snapshot; and when it takes over the tag |
| `NexusProtocol.PricesOnlyFromRunningFeed` | fynd-nexus/src/feed_runner.rs:58-128 | no prices before a start, after a failed start, in the backoff or after the end; while a feed runs, exactly after a publish |
| `NexusProtocol.StoppedOnlyForGood` | fynd-nexus/src/feed_runner.rs:35-47 | the runner has stopped only after a fatal or invalid-input error of the same service run |
| `NexusProtocol.EndDecides` | fynd-nexus/src/feed_runner.rs:35-88 | such an error does stop it; every other end or failed start sends it to the backoff, and from there to a new start |
| `NexusProtocol.FollowsOnlyStartedFeed` | fynd-nexus/src/feed_runner.rs:68-75 | a feed is followed only after it was started |
| `NexusProtocol.RestartStartsOver` | fynd-nexus/src/service.rs:63-77 | a restart begins a new run with an empty record that awaits its first snapshot |
| `Connectors.RankBy` | src/commands/derive_connector_tokens.rs:558-580 | each qualifying token's rank is one more than the number of qualifying tokens ahead of it; the others have none |
| `Connectors.RanksAreBijection` | src/commands/derive_connector_tokens.rs:564-579 | a rank is held exactly if it is from one to the number of qualifying tokens, and then by one token |
| `Connectors.PicksExactly` | src/commands/derive_connector_tokens.rs:612-613 | each ranking picks as many tokens as asked for, or as many as qualify |
| `Connectors.SelectConnectors` | src/commands/derive_connector_tokens.rs:588-639 | in score fields alone: who is ranked by TVL and by pool count and at which rank, that exactly the tokens within a size and those of the wrap pair are listed, and the order of the list |
| `Connectors.ConnectorListIsByScore` | src/commands/derive_connector_tokens.rs:595-639 | whatever list the two rankings define is that list |
| `Connectors.ReasonIsTrue` | src/commands/derive_connector_tokens.rs:611-621 | the reason given for a token says which rankings picked it |
| `Connectors.OrderDoesNotMatter` | src/commands/derive_connector_tokens.rs:588-639 | two orders of the same scores give the same list |
| `Connectors.ListedOnceWithWrapPair` | src/commands/derive_connector_tokens.rs:614-621 | no token is listed twice and every scored token of the wrap pair is listed |

## Left out

- Guarantee.UserGuarantee: states the commitment less a slack, because the full promise fails (see "What does not hold"); the converse condition is proved for one split with constant rates, not for every route.
- Guarantee.QuotedRoute: the route is in topological order, so not a round trip, the leg's pool and the pools after it serve one swap each, and the route has one exclusive leg, as the shape check asks.
- SplitTail.PromiseIffProportional: the branches of the split pay the output token directly, at constant rates, and the leg pays one for one.
- Replay.Simulate: pools are looked up by component in one market; the second caller, which reads a state from each swap (`fynd-core/src/post_process/replace.rs:412-426`), is not modelled.
- Replay.SplitNumerator: the fraction is a real number; the rounding of the floating-point product is not modelled.
- LatestPrices.Publish: sequence numbers are unbounded; the wrap of a 64-bit counter is not modelled. A message stands for its JSON text, and an encoding failure is not modelled.
- NexusProtocol.RunnerStep: a restarted service gets a run id it never used before, which the source takes from the clock (`fynd-nexus/src/service.rs:24-29`).
- FeedRunner.RunFeed: the feeds to run are a finite list given in advance; the backoff sleep takes no time.
- Connectors.Precedes: TVL figures are reals, so the order of not-a-number and of signed zeros is not modelled. Addresses are numbers, ordered as equal-length byte strings are.
- RouteValidation.ValidationError: an error names the check that failed, not the token or swap it failed on.
- Scoring of tokens, trusted prices and backed credit, which only add sums over components.
- The health endpoint and the lookup of a stream by venue name, which only add list facts.
- Metrics, logging, gas-token conversion, and the parsing of the user share from the environment.
- Pool pricing formulas; what the proofs need of a pool is stated as `PinnedReplay.DiminishingReturns`.
- The solver, its algorithms, the wire types, the clients and the benchmark harness.
