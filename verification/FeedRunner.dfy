/**
 The runner of one stream's feed: it publishes what the feed yields, withdraws when the feed goes
 stale or ends, and starts a new feed unless the last one ended for good.
 */
module FeedRunner {
  import opened Wrappers
  import opened LatestPrices

  datatype FeedError = Fatal | InvalidInput | Connection | Parsing

  datatype Outcome = Failed(error: FeedError) | RanOut | Panicked

  datatype Event<+D> = Published(prices: D, at: Time) | Stale | Ended(outcome: Outcome)

  datatype Decision = Stop | Restart

  function DecisionForError(error: FeedError): Decision {
    match error
    case Fatal => Stop
    case InvalidInput => Stop
    case Connection => Restart
    case Parsing => Restart
  }

  function DecisionFor(outcome: Outcome): Decision {
    match outcome
    case Failed(error) => DecisionForError(error)
    case RanOut => Restart
    case Panicked => Restart
  }

  /** The record after one event of the feed. */
  function AfterEvent<D>(runId: nat, record: Record<D>, event: Event<D>): Record<D> {
    match event
    case Published(prices, at) => Publish(runId, record, prices, at)
    case Stale => AfterWithdraw(runId, record)
    case Ended(_) => AfterWithdraw(runId, record)
  }

  /** The record after the first `k` events. */
  function AfterEvents<D>(runId: nat, record: Record<D>, events: seq<Event<D>>, k: nat): Record<D>
    requires k <= |events|
  {
    if k == 0 then record else AfterEvent(runId, AfterEvents(runId, record, events, k - 1), events[k - 1])
  }

  /** How many events the runner takes: up to and including the first end, or all of them. */
  function Length<D>(events: seq<Event<D>>): (n: nat)
    ensures n <= |events|
    ensures forall i | 0 <= i < n - 1 :: !events[i].Ended?
    ensures n < |events| ==> n > 0 && events[n - 1].Ended?
  {
    if |events| == 0 then 0
    else if events[0].Ended? then 1
    else
      var n := 1 + Length(events[1..]);
      assert forall i | 0 < i < n - 1 :: events[i] == events[1..][i - 1];
      n
  }

  ghost predicate EndsForGood<D>(events: seq<Event<D>>) {
    var n := Length(events);
    n > 0 && (events[n - 1] == Ended(Failed(Fatal)) || events[n - 1] == Ended(Failed(InvalidInput)))
  }

  /**
   Follows one feed to its end. The stream is left without prices however the feed ends, also when
   it closes without saying so, and the runner stops only after a fatal or invalid-input error.
   */
  method FollowFeed<D>(stream: LatestPrices<D>, events: seq<Event<D>>) returns (decision: Decision)
    requires stream.Valid()
    modifies stream
    ensures stream.Valid() && !HasPrices(stream.latest) && stream.latest.state.Withdrawn?
    ensures stream.latest
              == AfterWithdraw(stream.runId, AfterEvents(stream.runId, old(stream.latest), events, Length(events)))
    ensures decision == Stop <==> EndsForGood(events)
  {
    var i := 0;
    while i < |events|
      invariant i <= Length(events)
      invariant forall j | 0 <= j < i :: !events[j].Ended?
      invariant stream.Valid()
      invariant stream.latest == AfterEvents(stream.runId, old(stream.latest), events, i)
    {
      match events[i] {
        case Published(prices, at) =>
          stream.PublishPrices(prices, at);
        case Stale =>
          stream.WithdrawPrices();
        case Ended(outcome) =>
          stream.WithdrawPrices();
          assert Length(events) == i + 1;
          return DecisionFor(outcome);
      }
      i := i + 1;
    }
    stream.WithdrawPrices();
    return Restart;
  }

  /** The runner's next attempt: a feed that starts, with all it will yield, or an error. */
  datatype Start<+D> = Feed(events: seq<Event<D>>) | CannotStart(error: FeedError)

  ghost predicate StopsAt<D>(start: Start<D>) {
    match start
    case Feed(events) => EndsForGood(events)
    case CannotStart(error) => error == Fatal || error == InvalidInput
  }

  /** The record after the first `k` starts. */
  function AfterStarts<D>(runId: nat, record: Record<D>, starts: seq<Start<D>>, k: nat): Record<D>
    requires k <= |starts|
  {
    if k == 0 then record
    else
      var before := AfterStarts(runId, record, starts, k - 1);
      match starts[k - 1]
      case Feed(events) => AfterWithdraw(runId, AfterEvents(runId, before, events, Length(events)))
      case CannotStart(_) => before
  }

  /**
   Runs the feeds in turn. It returns only at the first start that stops for good; between feeds and
   after the end the stream has no prices.
   */
  method RunFeed<D>(stream: LatestPrices<D>, starts: seq<Start<D>>) returns (stopped: bool, tried: nat)
    requires stream.Valid() && !HasPrices(stream.latest)
    modifies stream
    ensures stream.Valid() && !HasPrices(stream.latest)
    ensures tried <= |starts| && stream.latest == AfterStarts(stream.runId, old(stream.latest), starts, tried)
    ensures stopped <==> exists i :: 0 <= i < |starts| && StopsAt(starts[i])
    ensures stopped ==> 0 < tried && StopsAt(starts[tried - 1]) && forall i | 0 <= i < tried - 1 :: !StopsAt(starts[i])
    ensures !stopped ==> tried == |starts|
  {
    tried := 0;
    while tried < |starts|
      invariant tried <= |starts| && stream.Valid() && !HasPrices(stream.latest)
      invariant stream.latest == AfterStarts(stream.runId, old(stream.latest), starts, tried)
      invariant forall i | 0 <= i < tried :: !StopsAt(starts[i])
    {
      var decision;
      match starts[tried] {
        case Feed(events) => decision := FollowFeed(stream, events);
        case CannotStart(error) => decision := DecisionForError(error);
      }
      tried := tried + 1;
      if decision == Stop {
        assert StopsAt(starts[tried - 1]);
        return true, tried;
      }
    }
    return false, tried;
  }

  /** After a publish the stream holds the very prices published, with the time they came. */
  lemma HoldsWhatWasPublished<D>(runId: nat, record: Record<D>, events: seq<Event<D>>, k: nat)
    requires 0 < k <= |events| && events[k - 1].Published?
    ensures var before, after := AfterEvents(runId, record, events, k - 1), AfterEvents(runId, record, events, k);
            after.encoded
            == Some(Message(1, runId, before.seqNo + 1, Snapshot(events[k - 1].at, events[k - 1].prices)))
  {}

  /** While a feed runs, the stream has prices exactly when its latest event was a publish. */
  lemma ServesIffLastPublished<D>(runId: nat, record: Record<D>, events: seq<Event<D>>, k: nat)
    requires k <= |events| && !HasPrices(record)
    ensures HasPrices(AfterEvents(runId, record, events, k)) <==> k > 0 && events[k - 1].Published?
  {}
}
