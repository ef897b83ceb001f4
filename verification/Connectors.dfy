/**
 Choosing connector tokens: the top tokens of two rankings and the wrap pair. The scored tokens come
 out of a hash map in any order; the list chosen does not depend on it.
 */
module Connectors {
  import opened Wrappers
  import opened Sequences
  import opened Sorting

  /** A token address, read as a number. */
  type Address = nat

  datatype Score = Score(symbol: string, componentCount: nat, backedTvl: real)

  datatype Entry = Entry(address: Address, score: Score)

  datatype RankingSizes = RankingSizes(poolCount: nat, tvl: nat)

  datatype SelectedBy = PoolCount | Tvl | Both | WrapPair

  datatype Selection = Selection(entry: Entry, componentRank: Option<nat>, tvlRank: Option<nat>, selectedBy: SelectedBy)

  /** A ranking: which scores it ranks, and the number it ranks by, the highest first. */
  datatype Ranking = Ranking(qualifies: Score -> bool, key: Score -> real)

  ghost predicate DistinctAddresses(scores: seq<Entry>) {
    forall i, j | 0 <= i < j < |scores| :: scores[i].address != scores[j].address
  }

  /** `a` ranks before `b`; ties go to the lower address. */
  predicate Precedes(rule: Ranking, a: Entry, b: Entry) {
    rule.key(a.score) > rule.key(b.score) || (rule.key(a.score) == rule.key(b.score) && a.address < b.address)
  }

  // ---------------------------------------------------------------- what a rank is

  /** The qualifying entries that rank before `e`. */
  ghost function Ahead(all: set<Entry>, rule: Ranking, e: Entry): set<Entry> {
    set x | x in all && rule.qualifies(x.score) && Precedes(rule, x, e)
  }

  /** One more than the number of qualifying entries ahead; none if `e` does not qualify. */
  ghost function RankOf(all: set<Entry>, rule: Ranking, e: Entry): Option<nat> {
    if rule.qualifies(e.score) then Some(|Ahead(all, rule, e)| + 1) else None
  }

  ghost function Entries(scores: seq<Entry>): set<Entry> {
    set e | e in scores
  }

  // ---------------------------------------------------------------- computing ranks

  function Qualifying(scores: seq<Entry>, rule: Ranking, k: nat): (indices: seq<nat>)
    requires k <= |scores|
    ensures forall i | i in indices :: i < k && rule.qualifies(scores[i].score)
    ensures forall i | 0 <= i < k && rule.qualifies(scores[i].score) :: i in indices
    ensures Unique(indices)
  {
    if k == 0 then []
    else
      var before := Qualifying(scores, rule, k - 1);
      assert forall i | 0 <= i < |before| :: before[i] in before;
      if rule.qualifies(scores[k - 1].score) then before + [k - 1] else before
  }

  function IndexPrecedes(scores: seq<Entry>, rule: Ranking): (nat, nat) -> bool {
    (a: nat, b: nat) => a < |scores| && b < |scores| && Precedes(rule, scores[a], scores[b])
  }

  lemma IndicesTotal(scores: seq<Entry>, rule: Ranking, indices: seq<nat>)
    requires DistinctAddresses(scores) && forall i | i in indices :: i < |scores|
    ensures TotalOn(IndexPrecedes(scores, rule), indices)
  {}

  /** The qualifying indices, best first. */
  function Ranked(scores: seq<Entry>, rule: Ranking): seq<nat> {
    Sort(IndexPrecedes(scores, rule), Qualifying(scores, rule, |scores|))
  }

  lemma RankedProperties(scores: seq<Entry>, rule: Ranking)
    requires DistinctAddresses(scores)
    ensures var r := Ranked(scores, rule);
            && Sorted(IndexPrecedes(scores, rule), r)
            && (forall i :: i in r <==> 0 <= i < |scores| && rule.qualifies(scores[i].score))
            && (forall i | 0 <= i < |r| :: r[i] < |scores|)
            && Unique(r)
  {
    var indices := Qualifying(scores, rule, |scores|);
    IndicesTotal(scores, rule, indices);
    SortSorts(IndexPrecedes(scores, rule), indices);
    var r := Ranked(scores, rule);
    assert forall i | 0 <= i < |r| :: r[i] in r;
  }

  /** The entries of the first `p` ranked indices. */
  ghost function Leaders(scores: seq<Entry>, r: seq<nat>, p: nat): (s: set<Entry>)
    requires p <= |r| && forall i | 0 <= i < |r| :: r[i] < |scores|
  {
    if p == 0 then {} else Leaders(scores, r, p - 1) + {scores[r[p - 1]]}
  }

  ghost predicate LeadsWithin(scores: seq<Entry>, r: seq<nat>, p: nat, e: Entry)
    requires p <= |r|
  {
    exists i :: 0 <= i < p && r[i] < |scores| && scores[r[i]] == e
  }

  lemma {:induction false} LeadersAre(scores: seq<Entry>, r: seq<nat>, p: nat, e: Entry)
    requires p <= |r| && forall i | 0 <= i < |r| :: r[i] < |scores|
    ensures e in Leaders(scores, r, p) <==> LeadsWithin(scores, r, p, e)
  {
    if p > 0 {
      LeadersAre(scores, r, p - 1, e);
      if LeadsWithin(scores, r, p, e) {
        var i :| 0 <= i < p && r[i] < |scores| && scores[r[i]] == e;
        assert i < p - 1 ==> LeadsWithin(scores, r, p - 1, e);
      }
    }
  }

  lemma {:induction false} LeadersCount(scores: seq<Entry>, r: seq<nat>, p: nat)
    requires p <= |r| && (forall i | 0 <= i < |r| :: r[i] < |scores|) && Unique(r) && DistinctAddresses(scores)
    ensures |Leaders(scores, r, p)| == p
  {
    if p > 0 {
      LeadersCount(scores, r, p - 1);
      var e := scores[r[p - 1]];
      LeadersAre(scores, r, p - 1, e);
    }
  }

  /** The position in the sorted list is the rank: exactly the entries ahead come before it. */
  lemma PositionIsRank(scores: seq<Entry>, rule: Ranking, p: nat)
    requires DistinctAddresses(scores) && p < |Ranked(scores, rule)|
    ensures var i := Ranked(scores, rule)[p];
            i < |scores| && RankOf(Entries(scores), rule, scores[i]) == Some(p + 1)
  {
    hide Ranked, Leaders, Ahead, LeadsWithin, Sorted;
    var r := Ranked(scores, rule);
    RankedProperties(scores, rule);
    assert r[p] in r;
    var e := scores[r[p]];
    LeadersCount(scores, r, p);
    forall x
      ensures x in Leaders(scores, r, p) <==> x in Ahead(Entries(scores), rule, e)
    {
      LeadersAre(scores, r, p, x);
      AheadIffLeads(scores, rule, p, x);
    }
    assert Leaders(scores, r, p) == Ahead(Entries(scores), rule, e);
  }

  lemma AheadIffLeads(scores: seq<Entry>, rule: Ranking, p: nat, x: Entry)
    requires DistinctAddresses(scores) && p < |Ranked(scores, rule)| && Ranked(scores, rule)[p] < |scores|
    ensures x in Ahead(Entries(scores), rule, scores[Ranked(scores, rule)[p]])
            <==> LeadsWithin(scores, Ranked(scores, rule), p, x)
  {
    hide Ranked;
    var r := Ranked(scores, rule);
    RankedProperties(scores, rule);
    var e := scores[r[p]];
    assert forall i | p < i < |r| :: IndexPrecedes(scores, rule)(r[p], r[i]);
    if x in Ahead(Entries(scores), rule, e) {
      var j :| 0 <= j < |scores| && scores[j] == x;
      assert j in r;
      var i :| 0 <= i < |r| && r[i] == j;
      assert i < p;
    }
    if i :| 0 <= i < p && r[i] < |scores| && scores[r[i]] == x {
      assert IndexPrecedes(scores, rule)(r[i], r[p]);
      assert r[i] in r;
    }
  }

  /** Each qualifying entry gets its rank, every other none. */
  method RankBy(scores: seq<Entry>, rule: Ranking) returns (ranks: seq<Option<nat>>)
    requires DistinctAddresses(scores)
    ensures |ranks| == |scores|
    ensures forall i | 0 <= i < |scores| :: ranks[i] == RankOf(Entries(scores), rule, scores[i])
  {
    var indices := Ranked(scores, rule);
    RankedProperties(scores, rule);
    ranks := seq(|scores|, _ => None);
    for position := 0 to |indices|
      invariant |ranks| == |scores|
      invariant forall i | 0 <= i < |scores| && ranks[i].Some? :: ranks[i] == RankOf(Entries(scores), rule, scores[i])
      invariant forall i | 0 <= i < |scores| && !rule.qualifies(scores[i].score) :: ranks[i].None?
      invariant forall p | 0 <= p < position :: indices[p] < |scores| && ranks[indices[p]].Some?
    {
      assert indices[position] in indices;
      PositionIsRank(scores, rule, position);
      ranks := ranks[indices[position] := Some(position + 1)];
    }
    forall i | 0 <= i < |scores|
      ensures ranks[i] == RankOf(Entries(scores), rule, scores[i])
    {
      if rule.qualifies(scores[i].score) {
        assert i in indices;
        var p :| 0 <= p < |indices| && indices[p] == i;
      }
    }
  }

  /** The entries a ranking ranks. */
  ghost function Qualified(scores: seq<Entry>, rule: Ranking): set<Entry> {
    set e | e in scores && rule.qualifies(e.score)
  }

  lemma RankedCount(scores: seq<Entry>, rule: Ranking)
    requires DistinctAddresses(scores)
    ensures |Ranked(scores, rule)| == |Qualified(scores, rule)|
  {
    hide Ranked;
    var r := Ranked(scores, rule);
    RankedProperties(scores, rule);
    LeadersCount(scores, r, |r|);
    forall e
      ensures e in Leaders(scores, r, |r|) <==> e in Qualified(scores, rule)
    {
      LeadersAre(scores, r, |r|, e);
      if e in Qualified(scores, rule) {
        var i :| 0 <= i < |scores| && scores[i] == e;
        assert i in r;
        var p :| 0 <= p < |r| && r[p] == i;
      }
      if p :| 0 <= p < |r| && scores[r[p]] == e {
        assert r[p] in r;
      }
    }
    assert Leaders(scores, r, |r|) == Qualified(scores, rule);
  }

  /** A rank is held exactly if it is from 1 to the number of qualifying entries, and then by one entry. */
  lemma RanksAreBijection(scores: seq<Entry>, rule: Ranking, rank: nat)
    requires DistinctAddresses(scores)
    ensures (exists i :: 0 <= i < |scores| && RankOf(Entries(scores), rule, scores[i]) == Some(rank))
            <==> 1 <= rank <= |Qualified(scores, rule)|
    ensures forall i, j | 0 <= i < |scores| && 0 <= j < |scores| && i != j
              && RankOf(Entries(scores), rule, scores[i]) == Some(rank) ::
              RankOf(Entries(scores), rule, scores[j]) != Some(rank)
  {
    hide Ranked, RankOf, Qualified;
    var r := Ranked(scores, rule);
    RankedCount(scores, rule);
    if 1 <= rank <= |r| {
      PositionIsRank(scores, rule, rank - 1);
      assert RankOf(Entries(scores), rule, scores[r[rank - 1]]) == Some(rank);
    }
    forall i | 0 <= i < |scores| && RankOf(Entries(scores), rule, scores[i]) == Some(rank)
      ensures 1 <= rank <= |r| && i == r[rank - 1]
    {
      RankHasPosition(scores, rule, i);
    }
  }

  lemma RankHasPosition(scores: seq<Entry>, rule: Ranking, i: nat)
    requires DistinctAddresses(scores) && i < |scores| && RankOf(Entries(scores), rule, scores[i]).Some?
    ensures var rank := RankOf(Entries(scores), rule, scores[i]).value;
            1 <= rank <= |Ranked(scores, rule)| && Ranked(scores, rule)[rank - 1] == i
  {
    hide Ranked;
    RankedProperties(scores, rule);
    var r := Ranked(scores, rule);
    assert i in r;
    var p :| 0 <= p < |r| && r[p] == i;
    PositionIsRank(scores, rule, p);
  }

  /** How many entries hold a rank up to `size`. */
  ghost function PickedCount(scores: seq<Entry>, rule: Ranking, size: nat): nat {
    |set e | e in scores && Picked(Entries(scores), rule, size, e)|
  }

  ghost predicate Picked(all: set<Entry>, rule: Ranking, size: nat, e: Entry) {
    RankOf(all, rule, e).Some? && RankOf(all, rule, e).value <= size
  }

  /** Each ranking picks as many as asked for, or all that qualify. */
  lemma PicksExactly(scores: seq<Entry>, rule: Ranking, size: nat)
    requires DistinctAddresses(scores)
    ensures var k := |Qualified(scores, rule)|;
            PickedCount(scores, rule, size) == if size < k then size else k
  {
    hide Ranked, RankOf;
    var r := Ranked(scores, rule);
    var n := if size < |r| then size else |r|;
    RankedCount(scores, rule);
    RankedProperties(scores, rule);
    LeadersCount(scores, r, n);
    forall e
      ensures e in scores && Picked(Entries(scores), rule, size, e) <==> e in Leaders(scores, r, n)
    {
      LeadersAre(scores, r, n, e);
      if e in scores && Picked(Entries(scores), rule, size, e) {
        var i :| 0 <= i < |scores| && scores[i] == e;
        RankHasPosition(scores, rule, i);
      }
      if p :| 0 <= p < n && scores[r[p]] == e {
        PositionIsRank(scores, rule, p);
      }
    }
    assert (set e | e in scores && Picked(Entries(scores), rule, size, e)) == Leaders(scores, r, n);
  }

  // ---------------------------------------------------------------- choosing the connectors

  /** The ranking by number of pools, among tokens with enough pools and backed TVL. */
  function ByPoolCount(minCount: nat, minTvl: real): Ranking {
    Ranking((s: Score) => s.componentCount >= minCount && s.backedTvl >= minTvl, (s: Score) => s.componentCount as real)
  }

  /** The ranking by backed TVL, among tokens with enough pools and any backed TVL. */
  function ByTvl(minCount: nat): Ranking {
    Ranking((s: Score) => s.componentCount >= minCount && s.backedTvl > 0.0, (s: Score) => s.backedTvl)
  }

  datatype Options = Options(wrapPair: seq<Address>, sizes: RankingSizes, minCount: nat, minTvl: real)

  /** Why a token with these ranks is chosen, if it is. */
  function Choose(address: Address, componentRank: Option<nat>, tvlRank: Option<nat>, o: Options): Option<SelectedBy> {
    var count := componentRank.Some? && componentRank.value <= o.sizes.poolCount;
    var tvl := tvlRank.Some? && tvlRank.value <= o.sizes.tvl;
    if count && tvl then Some(Both)
    else if count then Some(PoolCount)
    else if tvl then Some(Tvl)
    else if address in o.wrapPair then Some(WrapPair)
    else None
  }

  /** What is chosen of one entry, knowing all entries but not their order. */
  ghost function SelectionOf(all: set<Entry>, e: Entry, o: Options): Option<Selection> {
    var componentRank := RankOf(all, ByPoolCount(o.minCount, o.minTvl), e);
    var tvlRank := RankOf(all, ByTvl(o.minCount), e);
    var chosen := Choose(e.address, componentRank, tvlRank, o);
    if chosen.None? then None else Some(Selection(e, componentRank, tvlRank, chosen.value))
  }

  /** A missing rank comes after every rank. */
  predicate RankLess(a: Option<nat>, b: Option<nat>) {
    a.Some? && (b.None? || a.value < b.value)
  }

  /** By TVL rank, then pool-count rank, then address. */
  predicate Earlier(a: Selection, b: Selection) {
    || RankLess(a.tvlRank, b.tvlRank)
    || (a.tvlRank == b.tvlRank && RankLess(a.componentRank, b.componentRank))
    || (a.tvlRank == b.tvlRank && a.componentRank == b.componentRank && a.entry.address < b.entry.address)
  }

  /** `list` is the connector list of the entries: all that is chosen of them, each once, in order. */
  ghost predicate IsConnectorList(all: set<Entry>, o: Options, list: seq<Selection>) {
    && Sorted(Earlier, list)
    && forall s :: s in list <==> exists e :: e in all && SelectionOf(all, e, o) == Some(s)
  }

  // ---------------------------------------------------------------- the list in scores alone

  /** The token is ranked by TVL: enough pools and any backed TVL. */
  ghost predicate RankedByTvl(o: Options, s: Score) {
    s.componentCount >= o.minCount && s.backedTvl > 0.0
  }

  /** The token is ranked by pool count: enough pools and enough backed TVL. */
  ghost predicate RankedByPools(o: Options, s: Score) {
    s.componentCount >= o.minCount && s.backedTvl >= o.minTvl
  }

  ghost predicate MoreTvl(a: Entry, b: Entry) {
    || a.score.backedTvl > b.score.backedTvl
    || (a.score.backedTvl == b.score.backedTvl && a.address < b.address)
  }

  ghost predicate MorePools(a: Entry, b: Entry) {
    || a.score.componentCount > b.score.componentCount
    || (a.score.componentCount == b.score.componentCount && a.address < b.address)
  }

  ghost function TvlAhead(scores: seq<Entry>, o: Options, e: Entry): set<Entry> {
    set x | x in scores && RankedByTvl(o, x.score) && MoreTvl(x, e)
  }

  ghost function PoolsAhead(scores: seq<Entry>, o: Options, e: Entry): set<Entry> {
    set x | x in scores && RankedByPools(o, x.score) && MorePools(x, e)
  }

  /** Fewer than the size asked for are ahead in one of the rankings, or the token is of the wrap pair. */
  ghost predicate BelongsInList(scores: seq<Entry>, o: Options, e: Entry) {
    || (RankedByTvl(o, e.score) && |TvlAhead(scores, o, e)| < o.sizes.tvl)
    || (RankedByPools(o, e.score) && |PoolsAhead(scores, o, e)| < o.sizes.poolCount)
    || e.address in o.wrapPair
  }

  /** The tokens ranked by TVL come first, then those ranked by pool count, then the others by address. */
  ghost predicate ListedBefore(o: Options, a: Entry, b: Entry) {
    if RankedByTvl(o, a.score) || RankedByTvl(o, b.score) then
      RankedByTvl(o, a.score) && (RankedByTvl(o, b.score) ==> MoreTvl(a, b))
    else if RankedByPools(o, a.score) || RankedByPools(o, b.score) then
      RankedByPools(o, a.score) && (RankedByPools(o, b.score) ==> MorePools(a, b))
    else a.address < b.address
  }

  ghost predicate RanksByScore(scores: seq<Entry>, o: Options, s: Selection) {
    && s.tvlRank == (if RankedByTvl(o, s.entry.score) then Some(|TvlAhead(scores, o, s.entry)| + 1) else None)
    && s.componentRank == (if RankedByPools(o, s.entry.score) then Some(|PoolsAhead(scores, o, s.entry)| + 1) else None)
  }

  /** Exactly the tokens that belong in the list are in it, with their ranks and in order. */
  ghost predicate ListedByScore(scores: seq<Entry>, o: Options, list: seq<Selection>) {
    && (forall s | s in list :: s.entry in scores && RanksByScore(scores, o, s))
    && (forall e | e in scores :: BelongsInList(scores, o, e) <==> Lists(list, e))
    && (forall i, j | 0 <= i < j < |list| :: ListedBefore(o, list[i].entry, list[j].entry))
  }

  ghost predicate Lists(list: seq<Selection>, e: Entry) {
    exists s :: s in list && s.entry == e
  }

  lemma RulesAreScores(scores: seq<Entry>, o: Options, e: Entry)
    ensures RankOf(Entries(scores), ByTvl(o.minCount), e)
         == if RankedByTvl(o, e.score) then Some(|TvlAhead(scores, o, e)| + 1) else None
    ensures RankOf(Entries(scores), ByPoolCount(o.minCount, o.minTvl), e)
         == if RankedByPools(o, e.score) then Some(|PoolsAhead(scores, o, e)| + 1) else None
  {
    assert Ahead(Entries(scores), ByTvl(o.minCount), e) == TvlAhead(scores, o, e);
    assert Ahead(Entries(scores), ByPoolCount(o.minCount, o.minTvl), e) == PoolsAhead(scores, o, e);
  }

  /** A ranked entry ahead of another has the lower rank. */
  lemma AheadIsLower(scores: seq<Entry>, rule: Ranking, a: Entry, b: Entry)
    requires a in scores && rule.qualifies(a.score) && rule.qualifies(b.score) && Precedes(rule, a, b)
    ensures RankOf(Entries(scores), rule, a).value < RankOf(Entries(scores), rule, b).value
  {
    var x, y := Ahead(Entries(scores), rule, a), Ahead(Entries(scores), rule, b);
    assert a in y && a !in x && x <= y;
    assert x <= y - {a};
    Smaller(x, y - {a});
  }

  lemma {:induction false} Smaller(a: set<Entry>, b: set<Entry>)
    requires a <= b
    ensures |a| <= |b|
  {
    if a != {} {
      var e :| e in a;
      Smaller(a - {e}, b - {e});
    }
  }

  /** The rank orders the ranked entries as their scores do. */
  lemma EarlierIsListedBefore(scores: seq<Entry>, o: Options, a: Selection, b: Selection)
    requires a.entry in scores && b.entry in scores && a.entry.address != b.entry.address
    requires RanksByScore(scores, o, a) && RanksByScore(scores, o, b) && Earlier(a, b)
    ensures ListedBefore(o, a.entry, b.entry)
  {
    hide TvlAhead, PoolsAhead, RankOf, Precedes;
    RulesAreScores(scores, o, a.entry);
    RulesAreScores(scores, o, b.entry);
    if RankedByTvl(o, a.entry.score) && RankedByTvl(o, b.entry.score) && !MoreTvl(a.entry, b.entry) {
      PrecedesByTvl(o, b.entry, a.entry);
      AheadIsLower(scores, ByTvl(o.minCount), b.entry, a.entry);
    }
    if RankedByPools(o, a.entry.score) && RankedByPools(o, b.entry.score) && !MorePools(a.entry, b.entry) {
      PrecedesByPools(o, b.entry, a.entry);
      AheadIsLower(scores, ByPoolCount(o.minCount, o.minTvl), b.entry, a.entry);
    }
    if RankedByTvl(o, a.entry.score) && RankedByTvl(o, b.entry.score) && MoreTvl(a.entry, b.entry) {
      PrecedesByTvl(o, a.entry, b.entry);
      AheadIsLower(scores, ByTvl(o.minCount), a.entry, b.entry);
    }
  }

  lemma PrecedesByTvl(o: Options, a: Entry, b: Entry)
    requires MoreTvl(a, b)
    ensures Precedes(ByTvl(o.minCount), a, b)
  {}

  lemma PrecedesByPools(o: Options, a: Entry, b: Entry)
    requires MorePools(a, b)
    ensures Precedes(ByPoolCount(o.minCount, o.minTvl), a, b)
  {}

  /** What the connector list of the scores is, said with their fields alone. */
  lemma ConnectorListIsByScore(scores: seq<Entry>, o: Options, list: seq<Selection>)
    requires DistinctAddresses(scores) && IsConnectorList(Entries(scores), o, list)
    ensures ListedByScore(scores, o, list)
  {
    hide TvlAhead, PoolsAhead, RankOf, RankedByTvl, RankedByPools, ListedBefore, Earlier, Choose, BelongsInList;
    forall s | s in list
      ensures s.entry in scores && RanksByScore(scores, o, s)
    {
      SelectedRanks(scores, o, list, s);
    }
    forall e | e in scores
      ensures BelongsInList(scores, o, e) <==> Lists(list, e)
    {
      SelectedIffBelongs(scores, o, list, e);
    }
    forall i, j | 0 <= i < j < |list|
      ensures ListedBefore(o, list[i].entry, list[j].entry)
    {
      assert list[i] in list && list[j] in list && Earlier(list[i], list[j]);
      ListedOnceWithWrapPair(scores, o, list);
      EarlierIsListedBefore(scores, o, list[i], list[j]);
    }
  }

  lemma SelectedRanks(scores: seq<Entry>, o: Options, list: seq<Selection>, s: Selection)
    requires IsConnectorList(Entries(scores), o, list) && s in list
    ensures s.entry in scores && RanksByScore(scores, o, s)
  {
    hide TvlAhead, PoolsAhead, RankOf, Earlier;
    var e :| e in Entries(scores) && SelectionOf(Entries(scores), e, o) == Some(s);
    RulesAreScores(scores, o, e);
  }

  lemma SelectedIffBelongs(scores: seq<Entry>, o: Options, list: seq<Selection>, e: Entry)
    requires IsConnectorList(Entries(scores), o, list) && e in scores
    ensures BelongsInList(scores, o, e) <==> Lists(list, e)
  {
    hide TvlAhead, PoolsAhead, RankOf, Earlier;
    var all := Entries(scores);
    RulesAreScores(scores, o, e);
    if SelectionOf(all, e, o).Some? {
      assert SelectionOf(all, e, o).value in list;
    }
    forall s | s in list && s.entry == e
      ensures SelectionOf(all, e, o) == Some(s)
    {
      var x :| x in all && SelectionOf(all, x, o) == Some(s);
    }
  }

  // ---------------------------------------------------------------- the selection as it runs

  method SelectConnectors(scores: seq<Entry>, o: Options) returns (list: seq<Selection>)
    requires DistinctAddresses(scores)
    ensures IsConnectorList(Entries(scores), o, list)
    ensures ListedByScore(scores, o, list)
  {
    hide RankOf, ListedByScore;
    ghost var all := Entries(scores);
    var componentRanks := RankBy(scores, ByPoolCount(o.minCount, o.minTvl));
    var tvlRanks := RankBy(scores, ByTvl(o.minCount));
    var selected: seq<Selection> := [];
    for i := 0 to |scores|
      invariant SelectedUpTo(scores, o, i, selected)
      invariant Unique(selected)
    {
      var chosen := Choose(scores[i].address, componentRanks[i], tvlRanks[i], o);
      if chosen.Some? {
        var s := Selection(scores[i], componentRanks[i], tvlRanks[i], chosen.value);
        assert SelectionOf(all, scores[i], o) == Some(s);
        NotYetSelected(scores, i, o, selected, s);
        SelectNext(scores, o, i, selected);
        selected := selected + [s];
      } else {
        SelectNext(scores, o, i, selected);
      }
    }
    AllSelected(scores, o, selected);
    list := Sort(Earlier, selected);
    ConnectorListIsByScore(scores, o, list);
  }

  /** What is chosen of the first `k` scores. */
  ghost predicate SelectedUpTo(scores: seq<Entry>, o: Options, k: nat, selected: seq<Selection>)
    requires k <= |scores|
  {
    forall s :: s in selected <==> ChosenBefore(scores, o, k, s)
  }

  ghost predicate ChosenBefore(scores: seq<Entry>, o: Options, k: nat, s: Selection)
    requires k <= |scores|
  {
    exists j :: 0 <= j < k && SelectionOf(Entries(scores), scores[j], o) == Some(s)
  }

  lemma SelectNext(scores: seq<Entry>, o: Options, i: nat, selected: seq<Selection>)
    requires i < |scores| && SelectedUpTo(scores, o, i, selected)
    ensures var next := SelectionOf(Entries(scores), scores[i], o);
            SelectedUpTo(scores, o, i + 1, if next.Some? then selected + [next.value] else selected)
  {
    hide SelectionOf;
    forall s
      ensures ChosenBefore(scores, o, i + 1, s)
              <==> ChosenBefore(scores, o, i, s) || SelectionOf(Entries(scores), scores[i], o) == Some(s)
    {
      if ChosenBefore(scores, o, i + 1, s) {
        var j :| 0 <= j < i + 1 && SelectionOf(Entries(scores), scores[j], o) == Some(s);
        assert j < i ==> ChosenBefore(scores, o, i, s);
      }
    }
  }

  lemma AllSelected(scores: seq<Entry>, o: Options, selected: seq<Selection>)
    requires DistinctAddresses(scores) && SelectedUpTo(scores, o, |scores|, selected) && Unique(selected)
    ensures IsConnectorList(Entries(scores), o, Sort(Earlier, selected))
  {
    hide SelectionOf, Sort;
    var all := Entries(scores);
    SelectionsTotal(scores, o, selected);
    SortSorts(Earlier, selected);
    forall s
      ensures ChosenBefore(scores, o, |scores|, s) <==> exists e :: e in all && SelectionOf(all, e, o) == Some(s)
    {
      if e :| e in all && SelectionOf(all, e, o) == Some(s) {
        var j :| 0 <= j < |scores| && scores[j] == e;
        assert ChosenBefore(scores, o, |scores|, s);
      }
    }
  }

  lemma NotYetSelected(scores: seq<Entry>, i: nat, o: Options, selected: seq<Selection>, s: Selection)
    requires DistinctAddresses(scores) && i < |scores| && s.entry == scores[i]
    requires SelectedUpTo(scores, o, i, selected)
    ensures s !in selected
  {
    hide RankOf;
    forall j | 0 <= j < i
      ensures SelectionOf(Entries(scores), scores[j], o) != Some(s)
    {
      assert scores[j].address != scores[i].address;
    }
  }

  lemma SelectionsTotal(scores: seq<Entry>, o: Options, selected: seq<Selection>)
    requires DistinctAddresses(scores)
    requires forall x | x in selected :: ChosenBefore(scores, o, |scores|, x)
    ensures TotalOn(Earlier, selected)
  {
    hide RankOf;
    forall a, b | a in selected && b in selected && a != b
      ensures a.entry.address != b.entry.address
    {
      var i :| 0 <= i < |scores| && SelectionOf(Entries(scores), scores[i], o) == Some(a);
      var j :| 0 <= j < |scores| && SelectionOf(Entries(scores), scores[j], o) == Some(b);
      assert i != j;
    }
  }

  /** The list is fixed by the entries: two orders of the same scores give the same list. */
  lemma OrderDoesNotMatter(a: seq<Entry>, b: seq<Entry>, o: Options, listA: seq<Selection>, listB: seq<Selection>)
    requires DistinctAddresses(a) && multiset(a) == multiset(b)
    requires IsConnectorList(Entries(a), o, listA) && IsConnectorList(Entries(b), o, listB)
    ensures listA == listB
  {
    hide SelectionOf;
    assert forall e :: e in a <==> e in multiset(a);
    assert forall e :: e in b <==> e in multiset(b);
    assert Entries(a) == Entries(b);
    forall x | x in listA
      ensures ChosenBefore(a, o, |a|, x)
    {
      var e :| e in Entries(a) && SelectionOf(Entries(a), e, o) == Some(x);
      var j :| 0 <= j < |a| && a[j] == e;
    }
    SelectionsTotal(a, o, listA);
    SortedUnique(Earlier, listA, listB);
  }

  /** No token is listed twice, and every scored token of the wrap pair is listed. */
  lemma ListedOnceWithWrapPair(scores: seq<Entry>, o: Options, list: seq<Selection>)
    requires DistinctAddresses(scores) && IsConnectorList(Entries(scores), o, list)
    ensures forall i, j | 0 <= i < j < |list| :: list[i].entry.address != list[j].entry.address
    ensures forall e | e in scores && e.address in o.wrapPair :: exists s :: s in list && s.entry == e
  {
    hide RankOf;
    var all := Entries(scores);
    forall i, j | 0 <= i < j < |list|
      ensures list[i].entry.address != list[j].entry.address
    {
      assert list[i] in list && list[j] in list;
      var x :| x in all && SelectionOf(all, x, o) == Some(list[i]);
      var y :| y in all && SelectionOf(all, y, o) == Some(list[j]);
      assert Earlier(list[i], list[j]);
      assert !Earlier(list[i], list[i]);
      var m :| 0 <= m < |scores| && scores[m] == x;
      var n :| 0 <= n < |scores| && scores[n] == y;
      assert m != n;
    }
    forall e | e in scores && e.address in o.wrapPair
      ensures exists s :: s in list && s.entry == e
    {
      assert SelectionOf(all, e, o).Some?;
      var s := SelectionOf(all, e, o).value;
      assert s in list;
    }
  }

  /** The reason given is true: which rankings pick the token, and the wrap pair only if neither does. */
  lemma ReasonIsTrue(scores: seq<Entry>, o: Options, list: seq<Selection>, s: Selection)
    requires IsConnectorList(Entries(scores), o, list) && s in list
    ensures s.entry in scores
    ensures var all := Entries(scores);
            var count := Picked(all, ByPoolCount(o.minCount, o.minTvl), o.sizes.poolCount, s.entry);
            var tvl := Picked(all, ByTvl(o.minCount), o.sizes.tvl, s.entry);
            && (s.selectedBy == PoolCount || s.selectedBy == Both <==> count)
            && (s.selectedBy == Tvl || s.selectedBy == Both <==> tvl)
            && (s.selectedBy == WrapPair ==> s.entry.address in o.wrapPair)
  {
    hide RankOf;
    var e :| e in Entries(scores) && SelectionOf(Entries(scores), e, o) == Some(s);
  }
}
